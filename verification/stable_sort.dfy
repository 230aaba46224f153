/**
 * Stable sorting by a total preorder, the order `Array.prototype.sort` promises, with the two facts
 * the planners and canonical forms rest on: the stable sorting of a sequence is unique, and sorting
 * commutes with filtering.
 */
module StableSort {

  function Filter<T>(s: seq<T>, p: T -> bool): seq<T> {
    if s == [] then [] else if p(s[0]) then [s[0]] + Filter(s[1..], p) else Filter(s[1..], p)
  }

  lemma {:induction false} FilterContents<T(!new)>(s: seq<T>, p: T -> bool)
    ensures forall x :: x in Filter(s, p) <==> x in s && p(x)
    ensures |Filter(s, p)| <= |s|
  {
    if s != [] {
      FilterContents(s[1..], p);
      assert forall x :: x in s <==> x == s[0] || x in s[1..];
    }
  }

  lemma FilterCons<T>(x: T, s: seq<T>, p: T -> bool)
    ensures Filter([x] + s, p) == if p(x) then [x] + Filter(s, p) else Filter(s, p)
  {
    assert ([x] + s)[1..] == s;
  }

  ghost predicate TotalPreorder<T(!new)>(le: (T, T) -> bool) {
    && (forall a, b :: le(a, b) || le(b, a))
    && (forall a, b, c :: le(a, b) && le(b, c) ==> le(a, c))
  }

  ghost predicate Sorted<T(!new)>(s: seq<T>, le: (T, T) -> bool) {
    forall i, j :: 0 <= i < j < |s| ==> le(s[i], s[j])
  }

  function Insert<T>(x: T, s: seq<T>, le: (T, T) -> bool): seq<T> {
    if s == [] then [x]
    else if le(x, s[0]) then [x] + s
    else [s[0]] + Insert(x, s[1..], le)
  }

  function Sort<T>(s: seq<T>, le: (T, T) -> bool): seq<T> {
    if s == [] then [] else Insert(s[0], Sort(s[1..], le), le)
  }

  /** The elements `le` cannot tell from `x`. */
  function Tied<T(!new)>(x: T, le: (T, T) -> bool): T -> bool {
    y => le(x, y) && le(y, x)
  }

  /** `t` is in order, and elements that tie keep the order they have in `s`. */
  ghost predicate StableSorting<T(!new)>(s: seq<T>, t: seq<T>, le: (T, T) -> bool) {
    && Sorted(t, le)
    && forall x :: Filter(t, Tied(x, le)) == Filter(s, Tied(x, le))
  }

  // ----- inserting -----

  lemma {:induction false} InsertContents<T(!new)>(x: T, s: seq<T>, le: (T, T) -> bool)
    ensures multiset(Insert(x, s, le)) == multiset{x} + multiset(s)
  {
    if s != [] {
      assert s == [s[0]] + s[1..];
      if !le(x, s[0]) { InsertContents(x, s[1..], le); }
    }
  }

  lemma {:induction false} InsertSorted<T(!new)>(x: T, s: seq<T>, le: (T, T) -> bool)
    requires TotalPreorder(le) && Sorted(s, le)
    ensures Sorted(Insert(x, s, le), le)
  {
    if s != [] && !le(x, s[0]) {
      InsertSorted(x, s[1..], le);
      var rest := Insert(x, s[1..], le);
      InsertContents(x, s[1..], le);
      forall k | 0 <= k < |rest| ensures le(s[0], rest[k]) {
        assert rest[k] in multiset(rest);
        assert rest[k] == x || rest[k] in s[1..];
      }
    } else if s != [] {
      assert forall k :: 0 <= k < |s| ==> le(s[0], s[k]);
    }
  }

  /** An element no later one precedes goes to the front. */
  lemma InsertFirst<T(!new)>(x: T, s: seq<T>, le: (T, T) -> bool)
    requires forall y :: y in s ==> le(x, y)
    ensures Insert(x, s, le) == [x] + s
  {
    if s != [] { assert s[0] in s; }
  }

  lemma InsertSecond<T>(x: T, y: T, s: seq<T>, le: (T, T) -> bool)
    requires !le(x, y)
    ensures Insert(x, [y] + s, le) == [y] + Insert(x, s, le)
  {
    assert ([y] + s)[1..] == s;
  }

  /** Elements that `x` does not precede stay in front of it. */
  lemma {:induction false} InsertPassesOver<T>(x: T, s: seq<T>, le: (T, T) -> bool, k: nat)
    requires k <= |s| && forall i :: 0 <= i < k ==> !le(x, s[i])
    ensures Insert(x, s, le) == s[..k] + Insert(x, s[k..], le)
  {
    if k > 0 {
      InsertPassesOver(x, s[1..], le, k - 1);
      assert s[1..][k - 1..] == s[k..] && s[..k] == [s[0]] + s[1..][..k - 1];
    } else {
      assert s[0..] == s;
    }
  }

  lemma {:induction false} InsertFilter<T(!new)>(x: T, s: seq<T>, le: (T, T) -> bool, p: T -> bool)
    requires TotalPreorder(le) && Sorted(s, le)
    ensures Filter(Insert(x, s, le), p) == (if p(x) then Insert(x, Filter(s, p), le) else Filter(s, p))
  {
    if s == [] {
      FilterCons(x, s, p);
    } else if le(x, s[0]) {
      FilterCons(x, s, p);
      FilterContents(s, p);
      forall y | y in s ensures le(x, y) {}
      InsertFirst(x, Filter(s, p), le);
    } else {
      InsertFilter(x, s[1..], le, p);
      FilterCons(s[0], Insert(x, s[1..], le), p);
      if p(s[0]) { InsertSecond(x, s[0], Filter(s[1..], p), le); }
    }
  }

  // ----- sorting -----

  lemma {:induction false} SortContents<T(!new)>(s: seq<T>, le: (T, T) -> bool)
    ensures multiset(Sort(s, le)) == multiset(s)
  {
    if s != [] {
      SortContents(s[1..], le);
      InsertContents(s[0], Sort(s[1..], le), le);
      assert s == [s[0]] + s[1..];
    }
  }

  lemma {:induction false} SortSorted<T(!new)>(s: seq<T>, le: (T, T) -> bool)
    requires TotalPreorder(le)
    ensures Sorted(Sort(s, le), le)
  {
    if s != [] {
      SortSorted(s[1..], le);
      InsertSorted(s[0], Sort(s[1..], le), le);
    }
  }

  /** Sorting what a filter leaves is filtering what was sorted. */
  lemma {:induction false} SortFilter<T(!new)>(s: seq<T>, le: (T, T) -> bool, p: T -> bool)
    requires TotalPreorder(le)
    ensures Sort(Filter(s, p), le) == Filter(Sort(s, le), p)
  {
    if s != [] {
      SortFilter(s[1..], le, p);
      SortSorted(s[1..], le);
      InsertFilter(s[0], Sort(s[1..], le), le, p);
      assert p(s[0]) ==> ([s[0]] + Filter(s[1..], p))[1..] == Filter(s[1..], p);
    }
  }

  lemma {:induction false} TiedAlreadySorted<T(!new)>(s: seq<T>, le: (T, T) -> bool, x: T)
    requires TotalPreorder(le) && forall y :: y in s ==> Tied(x, le)(y)
    ensures Sort(s, le) == s
  {
    if s != [] {
      TiedAlreadySorted(s[1..], le, x);
      forall y | y in s[1..] ensures le(s[0], y) { assert s[0] in s && le(s[0], x) && le(x, y); }
      InsertFirst(s[0], s[1..], le);
    }
  }

  /** The first of a sorted sequence is the first of its own class. */
  lemma HeadOfClass<T(!new)>(t: seq<T>, le: (T, T) -> bool, x: T)
    requires TotalPreorder(le) && t != [] && Tied(x, le)(t[0])
    ensures Filter(t, Tied(x, le)) == [t[0]] + Filter(t[1..], Tied(x, le))
  {}

  lemma HeadsAgree<T(!new)>(t: seq<T>, u: seq<T>, le: (T, T) -> bool)
    requires TotalPreorder(le) && Sorted(t, le) && Sorted(u, le) && t != []
    requires forall x :: Filter(t, Tied(x, le)) == Filter(u, Tied(x, le))
    ensures u != [] && t[0] == u[0]
  {
    var p := Tied(t[0], le);
    HeadOfClass(t, le, t[0]);
    FilterContents(u, p);
    assert t[0] in Filter(u, p);
    var q := Tied(u[0], le);
    HeadOfClass(u, le, u[0]);
    FilterContents(t, q);
    assert u[0] in Filter(t, q);
    assert le(u[0], t[0]) && le(t[0], u[0]);
    HeadOfClass(u, le, t[0]);
    assert Filter(t, p)[0] == t[0] && Filter(u, p)[0] == u[0];
  }

  lemma {:induction false} SameClassesSameOrder<T(!new)>(t: seq<T>, u: seq<T>, le: (T, T) -> bool)
    requires TotalPreorder(le) && Sorted(t, le) && Sorted(u, le)
    requires forall x :: Filter(t, Tied(x, le)) == Filter(u, Tied(x, le))
    ensures t == u
    decreases |t|
  {
    if t == [] {
      if u != [] { HeadOfClass(u, le, u[0]); }
    } else {
      HeadOfClass(t, le, t[0]);
      HeadsAgree(t, u, le);
      forall x ensures Filter(t[1..], Tied(x, le)) == Filter(u[1..], Tied(x, le)) {
        var p := Tied(x, le);
        assert Filter(t, p) == Filter(u, p);
        if p(t[0]) {
          assert Filter(t, p)[1..] == Filter(t[1..], p) && Filter(u, p)[1..] == Filter(u[1..], p);
        }
      }
      SameClassesSameOrder(t[1..], u[1..], le);
    }
  }

  /** A sequence has exactly one stable sorting, whatever algorithm finds it. */
  lemma StableSortingIsUnique<T(!new)>(s: seq<T>, t: seq<T>, le: (T, T) -> bool)
    requires TotalPreorder(le)
    ensures StableSorting(s, t, le) <==> t == Sort(s, le)
  {
    SortSorted(s, le);
    forall x ensures Filter(Sort(s, le), Tied(x, le)) == Filter(s, Tied(x, le)) {
      SortFilter(s, le, Tied(x, le));
      FilterContents(s, Tied(x, le));
      TiedAlreadySorted(Filter(s, Tied(x, le)), le, x);
    }
    if StableSorting(s, t, le) { SameClassesSameOrder(t, Sort(s, le), le); }
  }

  /** `le` tells every two different elements of `s` apart. */
  ghost predicate NoTies<T(!new)>(s: seq<T>, le: (T, T) -> bool) {
    forall x, y :: x in s && y in s && le(x, y) && le(y, x) ==> x == y
  }

  lemma HeadAndTail<T(!new)>(s: seq<T>)
    requires s != []
    ensures multiset(s) == multiset{s[0]} + multiset(s[1..])
  {
    assert s == [s[0]] + s[1..];
  }

  lemma HeadIsLeast<T(!new)>(s: seq<T>, x: T, le: (T, T) -> bool)
    requires TotalPreorder(le) && Sorted(s, le) && x in s
    ensures le(s[0], x)
  {
    var k :| 0 <= k < |s| && s[k] == x;
    assert le(x, x);
  }

  lemma SameHead<T(!new)>(t: seq<T>, u: seq<T>, le: (T, T) -> bool)
    requires TotalPreorder(le) && Sorted(t, le) && Sorted(u, le) && NoTies(t, le) && multiset(t) == multiset(u)
    requires t != []
    ensures u != [] && t[0] == u[0]
  {
    assert t[0] in multiset(u) && u[0] in multiset(t);
    HeadIsLeast(t, u[0], le);
    HeadIsLeast(u, t[0], le);
  }

  /** Without ties, a sorted sequence is determined by its contents. */
  lemma {:induction false} SortedSameContents<T(!new)>(t: seq<T>, u: seq<T>, le: (T, T) -> bool)
    requires TotalPreorder(le) && Sorted(t, le) && Sorted(u, le) && NoTies(t, le) && multiset(t) == multiset(u)
    ensures t == u
    decreases |t|
  {
    if t == [] {
      assert |u| == |multiset(u)| == |multiset(t)|;
    } else {
      SameHead(t, u, le);
      HeadAndTail(t);
      HeadAndTail(u);
      assert multiset(t[1..]) == multiset(t) - multiset{t[0]};
      assert multiset(u[1..]) == multiset(u) - multiset{t[0]};
      SortedSameContents(t[1..], u[1..], le);
      assert t == [t[0]] + t[1..] && u == [u[0]] + u[1..];
    }
  }

  lemma SwappedParts<T>(s: seq<T>, i: nat, j: nat)
    requires i < j < |s|
    ensures s == s[..i] + [s[i]] + s[i + 1..j] + [s[j]] + s[j + 1..]
    ensures s[i := s[j]][j := s[i]] == s[..i] + [s[j]] + s[i + 1..j] + [s[i]] + s[j + 1..]
  {}

  lemma {:induction false} FilterJoins<T(!new)>(a: seq<T>, b: seq<T>, p: T -> bool)
    ensures Filter(a + b, p) == Filter(a, p) + Filter(b, p)
    decreases |a|
  {
    if a == [] { assert a + b == b; }
    else {
      assert (a + b)[1..] == a[1..] + b;
      FilterJoins(a[1..], b, p);
    }
  }

  lemma FilterAround<T(!new)>(a: seq<T>, x: T, b: seq<T>, y: T, c: seq<T>, p: T -> bool)
    requires p(x) && p(y)
    ensures Filter(a + [x] + b + [y] + c, p) == Filter(a, p) + [x] + Filter(b, p) + [y] + Filter(c, p)
  {
    FilterJoins(a + [x] + b + [y], c, p);
    FilterJoins(a + [x] + b, [y], p);
    FilterJoins(a + [x], b, p);
    FilterJoins(a, [x], p);
    FilterCons(x, [], p);
    FilterCons(y, [], p);
    assert [x] + [] == [x] && [y] + [] == [y];
  }

  /** Swapping two different elements that tie changes the stable sorting. */
  lemma SwappedTiesShow<T(!new)>(s: seq<T>, i: nat, j: nat, le: (T, T) -> bool)
    requires TotalPreorder(le) && i < j < |s| && s[i] != s[j] && Tied(s[i], le)(s[j])
    ensures Sort(s[i := s[j]][j := s[i]], le) != Sort(s, le)
  {
    var t := s[i := s[j]][j := s[i]];
    var p := Tied(s[i], le);
    var a, b, c := s[..i], s[i + 1..j], s[j + 1..];
    FilterAround(a, s[i], b, s[j], c, p);
    FilterAround(a, s[j], b, s[i], c, p);
    SwappedParts(s, i, j);
    assert Filter(s, p)[|Filter(a, p)|] != Filter(t, p)[|Filter(a, p)|];
    SortFilter(s, le, p);
    SortFilter(t, le, p);
    FilterContents(s, p);
    FilterContents(t, p);
    TiedAlreadySorted(Filter(s, p), le, s[i]);
    TiedAlreadySorted(Filter(t, p), le, s[i]);
  }

  // ----- filtering -----

  lemma {:induction false} FilterFilter<T(!new)>(s: seq<T>, p: T -> bool, q: T -> bool)
    ensures Filter(Filter(s, p), q) == Filter(Filter(s, q), p)
  {
    if s != [] {
      FilterFilter(s[1..], p, q);
      FilterCons(s[0], Filter(s[1..], p), q);
      FilterCons(s[0], Filter(s[1..], q), p);
    }
  }

  lemma {:induction false} FilterAll<T(!new)>(s: seq<T>, p: T -> bool)
    requires forall x :: x in s ==> p(x)
    ensures Filter(s, p) == s
  {
    if s != [] {
      FilterAll(s[1..], p);
      assert s == [s[0]] + s[1..];
    }
  }
}
