// The byte-wise order that sort.Strings uses on identifiers, and what sorting by it yields.
module Ordering {
  import opened StableSorting

  predicate Less(a: string, b: string) {
    if |b| == 0 then false
    else if |a| == 0 then true
    else a[0] < b[0] || (a[0] == b[0] && Less(a[1..], b[1..]))
  }

  lemma {:induction false} LessAsymmetric(a: string, b: string)
    requires Less(a, b)
    ensures !Less(b, a) && a != b
    decreases |a|
  {
    if |a| > 0 && a[0] == b[0] {
      LessAsymmetric(a[1..], b[1..]);
    }
  }

  lemma {:induction false} LessTransitive(a: string, b: string, c: string)
    requires Less(a, b) && Less(b, c)
    ensures Less(a, c)
    decreases |a|
  {
    if |a| > 0 && a[0] == b[0] == c[0] {
      LessTransitive(a[1..], b[1..], c[1..]);
    }
  }

  lemma {:induction false} LessTotal(a: string, b: string)
    requires a != b
    ensures Less(a, b) || Less(b, a)
    decreases |a|
  {
    if |a| > 0 && |b| > 0 && a[0] == b[0] {
      assert a == [a[0]] + a[1..] && b == [b[0]] + b[1..];
      LessTotal(a[1..], b[1..]);
    }
  }

  // The strings agree up to their k-th character, and there b goes on with a greater one, or at all.
  predicate BreaksAt(a: string, b: string, k: nat) {
    k <= |a| && k < |b| && a[..k] == b[..k] && (k == |a| || a[k] < b[k])
  }

  lemma {:induction false} BreakIsLess(a: string, b: string, k: nat)
    requires BreaksAt(a, b, k)
    ensures Less(a, b)
    decreases k
  {
    if k > 0 {
      assert a[0] == a[..k][0] == b[..k][0] == b[0];
      assert a[1..][..k - 1] == a[..k][1..] == b[..k][1..] == b[1..][..k - 1];
      BreakIsLess(a[1..], b[1..], k - 1);
    }
  }

  lemma {:induction false} LessBreaks(a: string, b: string) returns (k: nat)
    requires Less(a, b)
    ensures BreaksAt(a, b, k)
  {
    if a != "" && a[0] == b[0] {
      var j := LessBreaks(a[1..], b[1..]);
      k := j + 1;
      assert a[..k] == [a[0]] + a[1..][..j] && b[..k] == [b[0]] + b[1..][..j];
    } else {
      k := 0;
    }
  }

  // The first difference decides; what ends first is less.
  lemma LessExactly(a: string, b: string)
    ensures Less(a, b) <==> exists k: nat :: BreaksAt(a, b, k)
  {
    if Less(a, b) {
      var k := LessBreaks(a, b);
    }
    if k: nat :| BreaksAt(a, b, k) {
      BreakIsLess(a, b, k);
    }
  }

  // The least member of a non-empty set of identifiers.
  ghost predicate IsLeast(x: string, s: set<string>) {
    x in s && forall y :: y in s && y != x ==> Less(x, y)
  }

  lemma {:induction false} LeastExists(s: set<string>) returns (x: string)
    requires s != {}
    ensures IsLeast(x, s)
    decreases |s|
  {
    x :| x in s;
    if s != {x} {
      var rest := s - {x};
      assert s == {x} + rest;
      var y := LeastExists(rest);
      LessTotal(x, y);
      if Less(y, x) {
        forall z | z in s && z != y ensures Less(y, z) {
        }
        x := y;
      } else {
        forall z | z in s && z != x ensures Less(x, z) {
          if z != y {
            LessTransitive(x, y, z);
          }
        }
      }
    }
  }

  lemma LeastUnique(s: set<string>, x: string, y: string)
    requires IsLeast(x, s) && IsLeast(y, s)
    ensures x == y
  {
    if x != y {
      LessAsymmetric(x, y);
    }
  }

  ghost function Least(s: set<string>): (x: string)
    requires s != {}
    ensures IsLeast(x, s)
  {
    assert exists x :: IsLeast(x, s) by {
      var x := LeastExists(s);
    }
    var x :| IsLeast(x, s);
    x
  }

  ghost predicate StrictlySorted(s: seq<string>) {
    forall i, j :: 0 <= i < j < |s| ==> Less(s[i], s[j])
  }

  ghost predicate Distinct<T>(s: seq<T>) {
    forall i, j :: 0 <= i < j < |s| ==> s[i] != s[j]
  }

  ghost function Elements<T>(s: seq<T>): set<T> {
    set x | x in s
  }

  lemma ElementsConcat<T>(a: seq<T>, b: seq<T>)
    ensures Elements(a + b) == Elements(a) + Elements(b)
  {
  }

  lemma ElementsSingle<T>(x: T)
    ensures Elements([x]) == {x}
  {
  }

  lemma NoElements<T>(s: seq<T>)
    ensures Elements(s) == {} <==> s == []
  {
    if s != [] {
      assert s[0] in Elements(s);
    }
  }

  lemma LessIsStrictWeak()
    ensures StrictWeak(Less)
  {
    forall a, b | Less(a, b) ensures !Less(b, a) {
      LessAsymmetric(a, b);
    }
    forall a, b, c | Less(a, c) ensures Less(a, b) || Less(b, c) {
      if !Less(a, b) && a != b {
        LessTotal(a, b);
        LessTransitive(b, a, c);
      }
    }
  }

  // sort.Strings on a list without repeats; every call in the modelled code sorts such a list.
  function SortStrings(s: seq<string>): seq<string> {
    Sort(s, Less)
  }

  lemma StrictlySortedCons(x: string, s: seq<string>)
    requires StrictlySorted(s) && forall y :: y in s ==> Less(x, y)
    ensures StrictlySorted([x] + s)
  {
  }

  lemma SortSorts(s: seq<string>)
    requires Distinct(s)
    ensures StrictlySorted(SortStrings(s))
    ensures Elements(SortStrings(s)) == Elements(s)
    ensures |SortStrings(s)| == |s|
  {
    LessIsStrictWeak();
    hide StrictWeak, Less;
    forall i, j | 0 <= i < j < |s| ensures Less(s[i], s[j]) || Less(s[j], s[i]) {
      LessTotal(s[i], s[j]);
    }
    SortStrictly(s, Less);
    SortIsOrdered(s, Less);
    hide Sort, InOrder;
    assert |multiset(SortStrings(s))| == |multiset(s)|;
  }

  // A strictly sorted list is determined by its members.
  lemma {:induction false} SortedUnique(a: seq<string>, b: seq<string>)
    requires StrictlySorted(a) && StrictlySorted(b)
    requires Elements(a) == Elements(b)
    ensures a == b
  {
    if a == [] {
      NoElements(b);
    } else {
      assert a[0] in Elements(a);
      assert a[0] in b;
      assert b[0] in Elements(b);
      assert b[0] in a;
      if a[0] != b[0] {
        LessAsymmetric(a[0], b[0]);
      }
      assert Elements(a[1..]) == Elements(b[1..]) by {
        forall x ensures x in Elements(a[1..]) <==> x in Elements(b[1..]) {
          SortedTailMembers(a, x);
          SortedTailMembers(b, x);
        }
      }
      SortedUnique(a[1..], b[1..]);
    }
  }

  lemma SortedTailMembers(a: seq<string>, x: string)
    requires StrictlySorted(a) && a != []
    ensures x in a[1..] <==> x in Elements(a) && x != a[0]
  {
    assert a == [a[0]] + a[1..];
    if x in a[1..] {
      var i :| 1 <= i < |a| && a[i] == x;
      LessAsymmetric(a[0], a[i]);
    }
  }

  lemma SortedHeadIsLeast(a: seq<string>)
    requires StrictlySorted(a) && a != []
    ensures IsLeast(a[0], Elements(a))
  {
  }
}
