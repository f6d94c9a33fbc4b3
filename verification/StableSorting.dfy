// sort.SliceStable: what a stable sort by a strict weak order yields.
module StableSorting {

  // The order is asymmetric, and "neither before the other" is an equivalence.
  ghost predicate StrictWeak<T(!new)>(less: (T, T) -> bool) {
    && (forall a, b :: less(a, b) ==> !less(b, a))
    && (forall a, b, c :: less(a, c) ==> less(a, b) || less(b, c))
  }

  ghost predicate InOrder<T>(s: seq<T>, less: (T, T) -> bool) {
    forall i, j :: 0 <= i < j < |s| ==> !less(s[j], s[i])
  }

  predicate Tied<T>(a: T, b: T, less: (T, T) -> bool) {
    !less(a, b) && !less(b, a)
  }

  // The elements that tie with x, in the order they stand.
  function Ties<T>(s: seq<T>, x: T, less: (T, T) -> bool): seq<T> {
    if s == [] then []
    else if Tied(s[0], x, less) then [s[0]] + Ties(s[1..], x, less)
    else Ties(s[1..], x, less)
  }

  // In order, with the same elements, and elements that tie keep their order.
  ghost predicate IsStableSort<T(!new)>(s: seq<T>, sorted: seq<T>, less: (T, T) -> bool) {
    && InOrder(sorted, less)
    && multiset(sorted) == multiset(s)
    && forall x :: Ties(sorted, x, less) == Ties(s, x, less)
  }

  function Insert<T>(x: T, s: seq<T>, less: (T, T) -> bool): seq<T> {
    if s == [] || !less(s[0], x) then [x] + s else [s[0]] + Insert(x, s[1..], less)
  }

  function Sort<T>(s: seq<T>, less: (T, T) -> bool): seq<T> {
    if s == [] then [] else Insert(s[0], Sort(s[1..], less), less)
  }

  lemma Cons<T>(x: T, s: seq<T>, less: (T, T) -> bool)
    requires InOrder(s, less) && forall y :: y in s ==> !less(y, x)
    ensures InOrder([x] + s, less)
  {
    var r := [x] + s;
    forall i, j | 0 <= i < j < |r| ensures !less(r[j], r[i]) {
      assert r[j] == s[j - 1] && (i > 0 ==> r[i] == s[i - 1]);
    }
  }

  lemma Chain<T(!new)>(a: T, b: T, c: T, less: (T, T) -> bool)
    requires StrictWeak(less)
    ensures less(a, c) ==> less(a, b) || less(b, c)
  {
  }

  lemma FirstLeads<T(!new)>(x: T, s: seq<T>, less: (T, T) -> bool)
    requires StrictWeak(less) && InOrder(s, less) && s != [] && !less(s[0], x)
    ensures forall y :: y in s ==> !less(y, x)
  {
    forall j | 0 <= j < |s| ensures !less(s[j], x) {
      Chain(s[j], s[0], x, less);
      assert j == 0 || !less(s[j], s[0]);
    }
  }

  lemma {:induction false} InsertKeepsOrder<T(!new)>(x: T, s: seq<T>, less: (T, T) -> bool)
    requires StrictWeak(less) && InOrder(s, less)
    ensures InOrder(Insert(x, s, less), less)
    ensures multiset(Insert(x, s, less)) == multiset(s) + multiset{x}
  {
    if s == [] {
    } else if !less(s[0], x) {
      FirstLeads(x, s, less);
      Cons(x, s, less);
    } else {
      var rest := s[1..];
      InsertKeepsOrder(x, rest, less);
      assert s == [s[0]] + rest;
      assert !less(x, s[0]);
      hide StrictWeak;
      var tail := Insert(x, rest, less);
      forall y | y in tail ensures !less(y, s[0]) {
        assert y in multiset(tail);
        assert y in rest || y == x;
      }
      Cons(s[0], tail, less);
    }
  }

  lemma {:induction false} InsertKeepsTies<T(!new)>(e: T, s: seq<T>, x: T, less: (T, T) -> bool)
    requires StrictWeak(less)
    ensures Ties(Insert(e, s, less), x, less) == (if Tied(e, x, less) then [e] else []) + Ties(s, x, less)
  {
    if s == [] || !less(s[0], e) {
      assert ([e] + s)[1..] == s;
    } else {
      assert ([s[0]] + Insert(e, s[1..], less))[1..] == Insert(e, s[1..], less);
      InsertKeepsTies(e, s[1..], x, less);
    }
  }

  lemma {:induction false} SortKeepsTies<T(!new)>(s: seq<T>, x: T, less: (T, T) -> bool)
    requires StrictWeak(less)
    ensures Ties(Sort(s, less), x, less) == Ties(s, x, less)
  {
    if s != [] {
      SortKeepsTies(s[1..], x, less);
      InsertKeepsTies(s[0], Sort(s[1..], less), x, less);
    }
  }

  lemma {:induction false} SortIsOrdered<T(!new)>(s: seq<T>, less: (T, T) -> bool)
    requires StrictWeak(less)
    ensures InOrder(Sort(s, less), less) && multiset(Sort(s, less)) == multiset(s)
  {
    if s != [] {
      SortIsOrdered(s[1..], less);
      InsertKeepsOrder(s[0], Sort(s[1..], less), less);
      assert s == [s[0]] + s[1..];
    }
  }

  lemma SortIsStable<T(!new)>(s: seq<T>, less: (T, T) -> bool)
    requires StrictWeak(less)
    ensures IsStableSort(s, Sort(s, less), less)
  {
    hide StrictWeak, InOrder;
    SortIsOrdered(s, less);
    forall x ensures Ties(Sort(s, less), x, less) == Ties(s, x, less) {
      SortKeepsTies(s, x, less);
    }
  }

  // ---- lists without ties ----

  ghost predicate Strictly<T>(s: seq<T>, less: (T, T) -> bool) {
    forall i, j :: 0 <= i < j < |s| ==> less(s[i], s[j])
  }

  ghost predicate Untied<T>(s: seq<T>, less: (T, T) -> bool) {
    forall i, j :: 0 <= i < j < |s| ==> less(s[i], s[j]) || less(s[j], s[i])
  }

  lemma StrictCons<T>(x: T, s: seq<T>, less: (T, T) -> bool)
    requires Strictly(s, less) && forall y :: y in s ==> less(x, y)
    ensures Strictly([x] + s, less)
  {
  }

  lemma LeadsStrictly<T(!new)>(x: T, s: seq<T>, less: (T, T) -> bool)
    requires StrictWeak(less) && Strictly(s, less) && s != [] && less(x, s[0])
    ensures forall y :: y in s ==> less(x, y)
  {
    forall j | 0 <= j < |s| ensures less(x, s[j]) {
      Chain(x, s[j], s[0], less);
      assert j == 0 || less(s[0], s[j]);
    }
  }

  lemma {:induction false} InsertStrictly<T(!new)>(x: T, s: seq<T>, less: (T, T) -> bool)
    requires StrictWeak(less) && Strictly(s, less)
    requires forall y :: y in s ==> less(x, y) || less(y, x)
    ensures Strictly(Insert(x, s, less), less)
    ensures forall y :: y in Insert(x, s, less) <==> y == x || y in s
  {
    if s == [] {
    } else if !less(s[0], x) {
      assert s[0] in s;
      LeadsStrictly(x, s, less);
      hide StrictWeak;
      StrictCons(x, s, less);
    } else {
      InsertStrictly(x, s[1..], less);
      assert s == [s[0]] + s[1..];
      hide StrictWeak;
      StrictCons(s[0], Insert(x, s[1..], less), less);
    }
  }

  // Sorting a list in which no two elements tie.
  lemma {:induction false} SortStrictly<T(!new)>(s: seq<T>, less: (T, T) -> bool)
    requires StrictWeak(less) && Untied(s, less)
    ensures Strictly(Sort(s, less), less)
    ensures forall y :: y in Sort(s, less) <==> y in s
  {
    if s != [] {
      hide StrictWeak, Strictly;
      SortStrictly(s[1..], less);
      assert s == [s[0]] + s[1..];
      forall y | y in s[1..] ensures less(s[0], y) || less(y, s[0]) {
        var j :| 1 <= j < |s| && s[j] == y;
      }
      InsertStrictly(s[0], Sort(s[1..], less), less);
    }
  }
}
