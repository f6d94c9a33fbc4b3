// Admission of a context pack into a byte budget: required items first, then what else fits.
module Ledger {
  import opened Ordering
  import opened StableSorting

  const DEFAULT_BUDGET: nat := 256 * 1024

  datatype Item = Item(id: string, path: string, bytes: nat, required: bool)

  datatype Pack = Pack(items: seq<Item>, bytes: int, anchors: seq<string>)

  datatype Verdict = Admit | Refuse | Degrade

  datatype Reason = BudgetFit | RequiredOverflow | OptionalDropped | AnchorsLost

  datatype Decision = Decision(
    verdict: Verdict,
    reason: Reason,
    budgetBytes: int,
    requestedBytes: int,
    remainingBytes: int,
    requiredOverflow: bool,
    droppedOptional: nat,
    itemsRequired: nat,
    itemsIncluded: nat,
    coverageBps: nat,
    toolCalls: nat,
    included: seq<Item>)

  function Bytes(items: seq<Item>): nat {
    if items == [] then 0 else items[0].bytes + Bytes(items[1..])
  }

  function RequiredOf(items: seq<Item>): seq<Item> {
    if items == [] then []
    else if items[0].required then [items[0]] + RequiredOf(items[1..])
    else RequiredOf(items[1..])
  }

  // Required items come first, each group by path.
  predicate Sooner(a: Item, b: Item) {
    if a.required != b.required then a.required else Less(a.path, b.path)
  }

  lemma SoonerIsStrictWeak()
    ensures StrictWeak(Sooner)
  {
    forall a, b | Sooner(a, b) ensures !Sooner(b, a) {
      if a.required == b.required {
        LessAsymmetric(a.path, b.path);
      }
    }
    forall a, b, c | Sooner(a, c) ensures Sooner(a, b) || Sooner(b, c) {
      if a.required == b.required == c.required && !Less(a.path, b.path) && a.path != b.path {
        LessTotal(a.path, b.path);
        LessTransitive(b.path, a.path, c.path);
      }
    }
  }

  // Items of one path that are both required or both not, in the order they stand.
  function OfPath(items: seq<Item>, path: string, required: bool): seq<Item> {
    if items == [] then []
    else if items[0].path == path && items[0].required == required then [items[0]] + OfPath(items[1..], path, required)
    else OfPath(items[1..], path, required)
  }

  lemma {:induction false} TiesAreOfPath(items: seq<Item>, x: Item)
    ensures Ties(items, x, Sooner) == OfPath(items, x.path, x.required)
  {
    if items != [] {
      TiesAreOfPath(items[1..], x);
      if items[0].path != x.path {
        LessTotal(items[0].path, x.path);
      } else if Less(x.path, x.path) {
        LessAsymmetric(x.path, x.path);
      }
    }
  }

  // The order in which items are admitted: the required ones first, each group by ascending path, and
  // items of one path as the pack lists them.
  lemma AdmissionOrder(items: seq<Item>, sorted: seq<Item>)
    requires IsStableSort(items, sorted, Sooner)
    ensures multiset(sorted) == multiset(items)
    ensures forall i, j :: 0 <= i < j < |sorted| ==>
      && (sorted[j].required ==> sorted[i].required)
      && (sorted[i].required == sorted[j].required ==> !Less(sorted[j].path, sorted[i].path))
    ensures forall x: Item :: OfPath(sorted, x.path, x.required) == OfPath(items, x.path, x.required)
  {
    forall i, j | 0 <= i < j < |sorted|
      ensures sorted[j].required ==> sorted[i].required
      ensures sorted[i].required == sorted[j].required ==> !Less(sorted[j].path, sorted[i].path) {
      assert !Sooner(sorted[j], sorted[i]);
    }
    forall x: Item ensures OfPath(sorted, x.path, x.required) == OfPath(items, x.path, x.required) {
      TiesAreOfPath(sorted, x);
      TiesAreOfPath(items, x);
    }
  }

  // What greedily filling the budget takes, item by item.
  function Taken(items: seq<Item>, budget: nat): seq<Item> {
    if items == [] then []
    else if items[0].bytes > budget then Taken(items[1..], budget)
    else [items[0]] + Taken(items[1..], budget - items[0].bytes)
  }

  function Left(items: seq<Item>, budget: nat): seq<Item> {
    if items == [] then []
    else if items[0].bytes > budget then [items[0]] + Left(items[1..], budget)
    else Left(items[1..], budget - items[0].bytes)
  }

  ghost predicate RequiredFirst(items: seq<Item>) {
    forall i, j :: 0 <= i < j < |items| && items[j].required ==> items[i].required
  }

  lemma {:induction false} RequiredBound(items: seq<Item>)
    ensures Bytes(RequiredOf(items)) <= Bytes(items)
    ensures RequiredOf(items) == items <==> forall i :: 0 <= i < |items| ==> items[i].required
    ensures |RequiredOf(items)| <= |items|
  {
    if items != [] {
      RequiredBound(items[1..]);
      assert items == [items[0]] + items[1..];
    }
  }

  lemma {:induction false} NoneRequired(items: seq<Item>)
    requires forall x :: x in items ==> !x.required
    ensures RequiredOf(items) == []
  {
    if items != [] {
      NoneRequired(items[1..]);
    }
  }

  // The next item is taken exactly when it fits what those taken before it leave.
  lemma {:induction false} TakenNext(items: seq<Item>, i: nat, budget: nat)
    requires i < |items|
    ensures var before := Taken(items[..i], budget);
      && Bytes(before) <= budget
      && Taken(items[..i + 1], budget) ==
           before + if items[i].bytes <= budget - Bytes(before) then [items[i]] else []
  {
    if i == 0 {
      assert items[..1] == [items[0]] && items[..0] == [];
    } else {
      var rest, left := items[1..], if items[0].bytes > budget then budget else budget - items[0].bytes;
      assert items[..i][1..] == rest[..i - 1] && items[..i + 1][1..] == rest[..i];
      TakenNext(rest, i - 1, left);
      var more := Taken(rest[..i - 1], left);
      if items[0].bytes <= budget {
        assert ([items[0]] + more)[1..] == more;
        assert [items[0]] + (more + [items[i]]) == ([items[0]] + more) + [items[i]];
      }
    }
  }

  // Everything is either taken or left.
  lemma {:induction false} GreedyPartitions(items: seq<Item>, budget: nat)
    ensures multiset(Taken(items, budget)) + multiset(Left(items, budget)) == multiset(items)
    ensures |Taken(items, budget)| + |Left(items, budget)| == |items|
  {
    if items != [] {
      assert items == [items[0]] + items[1..];
      GreedyPartitions(items[1..], if items[0].bytes > budget then budget else budget - items[0].bytes);
    }
  }

  // The taken fit, whatever is left is larger than the final remainder, and nothing is left exactly
  // when all fits.
  lemma {:induction false} GreedyIsMaximal(items: seq<Item>, budget: nat)
    ensures Bytes(Taken(items, budget)) <= budget
    ensures forall x :: x in Left(items, budget) ==> x.bytes > budget - Bytes(Taken(items, budget))
    ensures Left(items, budget) == [] <==> Bytes(items) <= budget
  {
    if items != [] {
      GreedyIsMaximal(items[1..], if items[0].bytes > budget then budget else budget - items[0].bytes);
    }
  }

  // With the required items first, one of them is left exactly when together they exceed the budget.
  lemma {:induction false} OverflowExact(items: seq<Item>, budget: nat)
    requires RequiredFirst(items)
    ensures RequiredOf(Left(items, budget)) != [] <==> Bytes(RequiredOf(items)) > budget
    ensures Bytes(RequiredOf(items)) <= budget ==> RequiredOf(Taken(items, budget)) == RequiredOf(items)
  {
    if items != [] {
      var rest := items[1..];
      if !items[0].required {
        NoneRequired(items);
        GreedyMembers(items, budget);
        NoneRequired(Left(items, budget));
        NoneRequired(Taken(items, budget));
      } else if items[0].bytes <= budget {
        OverflowExact(rest, budget - items[0].bytes);
      }
    }
  }

  lemma {:induction false} GreedyMembers(items: seq<Item>, budget: nat)
    ensures forall x :: x in Taken(items, budget) ==> x in items
    ensures forall x :: x in Left(items, budget) ==> x in items
  {
    if items != [] {
      GreedyMembers(items[1..], budget);
      if items[0].bytes <= budget {
        GreedyMembers(items[1..], budget - items[0].bytes);
      }
    }
  }

  lemma {:induction false} BytesConcat(a: seq<Item>, b: seq<Item>)
    ensures Bytes(a + b) == Bytes(a) + Bytes(b) && RequiredOf(a + b) == RequiredOf(a) + RequiredOf(b)
  {
    if a == [] {
      assert a + b == b;
    } else {
      assert (a + b)[1..] == a[1..] + b;
      BytesConcat(a[1..], b);
    }
  }

  // Sums do not depend on the order.
  lemma {:induction false} SameMultiset(a: seq<Item>, b: seq<Item>)
    requires multiset(a) == multiset(b)
    ensures Bytes(a) == Bytes(b) && Bytes(RequiredOf(a)) == Bytes(RequiredOf(b)) && |RequiredOf(a)| == |RequiredOf(b)|
  {
    if a == [] {
      assert |multiset(b)| == 0;
    } else {
      hide Bytes, RequiredOf;
      var i := Find(b, a[0], multiset(a));
      var rest := b[..i] + b[i + 1..];
      MovedToFront(b, i);
      FrontOf(a);
      Cancel(multiset(a[1..]), multiset(rest), a[0]);
      SameMultiset(a[1..], rest);
    }
  }

  lemma Find(b: seq<Item>, x: Item, items: multiset<Item>) returns (i: nat)
    requires multiset(b) == items && x in items
    ensures i < |b| && b[i] == x
  {
    assert x in b;
    i :| i < |b| && b[i] == x;
  }

  lemma FrontOf(a: seq<Item>)
    requires a != []
    ensures multiset(a) == multiset(a[1..]) + multiset{a[0]}
    ensures Bytes(a) == a[0].bytes + Bytes(a[1..])
    ensures Bytes(RequiredOf(a)) == (if a[0].required then a[0].bytes else 0) + Bytes(RequiredOf(a[1..]))
    ensures |RequiredOf(a)| == (if a[0].required then 1 else 0) + |RequiredOf(a[1..])|
  {
    MovedToFront(a, 0);
    assert a[..0] + a[1..] == a[1..];
  }

  lemma Cancel(p: multiset<Item>, q: multiset<Item>, x: Item)
    requires p + multiset{x} == q + multiset{x}
    ensures p == q
  {
    assert p == (p + multiset{x}) - multiset{x};
  }

  lemma MovedToFront(b: seq<Item>, i: nat)
    requires i < |b|
    ensures
      var rest := b[..i] + b[i + 1..];
      && multiset(b) == multiset(rest) + multiset{b[i]}
      && Bytes(b) == b[i].bytes + Bytes(rest)
      && Bytes(RequiredOf(b)) == (if b[i].required then b[i].bytes else 0) + Bytes(RequiredOf(rest))
      && |RequiredOf(b)| == (if b[i].required then 1 else 0) + |RequiredOf(rest)|
  {
    var x, left, right := b[i], b[..i], b[i + 1..];
    assert b == left + ([x] + right);
    assert ([x] + right)[1..] == right;
    BytesConcat(left, [x] + right);
    BytesConcat(left, right);
    BytesConcat(RequiredOf(left), RequiredOf([x] + right));
    BytesConcat(RequiredOf(left), RequiredOf(right));
  }

  ghost predicate Present(items: seq<Item>, anchor: string) {
    exists i :: 0 <= i < |items| && (items[i].id == anchor || items[i].path == anchor)
  }

  ghost predicate AnchorsKept(pack: Pack) {
    forall i :: 0 <= i < |pack.anchors| ==> Present(pack.items, pack.anchors[i])
  }

  ghost function LostAnchors(pack: Pack, n: nat): set<int>
    requires n <= |pack.anchors|
  {
    set i | 0 <= i < n && !Present(pack.items, pack.anchors[i])
  }

  lemma LostNext(pack: Pack, n: nat)
    requires n < |pack.anchors|
    ensures |LostAnchors(pack, n + 1)| ==
      |LostAnchors(pack, n)| + if Present(pack.items, pack.anchors[n]) then 0 else 1
  {
    var more := if Present(pack.items, pack.anchors[n]) then {} else {n};
    hide Present;
    assert LostAnchors(pack, n + 1) == LostAnchors(pack, n) + more;
  }

  method CheckAnchors(pack: Pack) returns (lost: nat)
    ensures lost == |LostAnchors(pack, |pack.anchors|)|
    ensures lost == 0 <==> AnchorsKept(pack)
  {
    var present: set<string> := {};
    for i := 0 to |pack.items|
      invariant forall x :: x in present <==> Present(pack.items[..i], x)
    {
      var item := pack.items[i];
      assert pack.items[..i + 1] == pack.items[..i] + [item];
      forall x ensures Present(pack.items[..i + 1], x) <==> Present(pack.items[..i], x) || x == item.id || x == item.path {
        PresentNext(pack.items[..i], item, x);
      }
      present := present + {item.id} + {item.path};
    }
    assert pack.items[..|pack.items|] == pack.items;
    lost := 0;
    for i := 0 to |pack.anchors|
      invariant lost == 0 <==> forall j :: 0 <= j < i ==> Present(pack.items, pack.anchors[j])
      invariant lost == |LostAnchors(pack, i)|
    {
      LostNext(pack, i);
      if pack.anchors[i] !in present {
        lost := lost + 1;
      }
    }
  }

  lemma PresentNext(items: seq<Item>, item: Item, x: string)
    ensures Present(items + [item], x) <==> Present(items, x) || x == item.id || x == item.path
  {
    var more := items + [item];
    assert forall i :: 0 <= i < |items| ==> more[i] == items[i];
    assert more[|items|] == item;
  }

  function CoverageBps(included: nat, required: nat): nat {
    if required <= 0 then 10000 else included * 10000 / required
  }

  lemma CoverageExact(included: nat, required: nat)
    requires included <= required
    ensures CoverageBps(included, required) == 10000 <==> included == required
    ensures CoverageBps(included, required) <= 10000
  {
    if required > 0 {
      var whole, part := required * 10000, included * 10000;
      assert part < whole || (part == whole && included == required);
      QuotientFrom(part, required);
    }
  }

  // A quotient reaches 10000 exactly when the dividend does.
  lemma QuotientFrom(x: nat, d: nat)
    requires d > 0 && x <= 10000 * d
    ensures x / d <= 10000 && (x / d == 10000 <==> x == 10000 * d)
  {
    var q := x / d;
    Quotient(x, d, q);
    if q >= 10000 {
      Grows(d, 10000, q);
    }
    if x == 10000 * d && q < 10000 {
      Grows(d, q + 1, 10000);
    }
  }

  lemma Quotient(x: nat, d: nat, q: nat)
    requires d > 0 && q == x / d
    ensures d * q <= x < d * (q + 1)
  {
    assert x == d * (x / d) + x % d;
  }

  lemma Grows(d: nat, a: nat, b: nat)
    requires a <= b
    ensures d * a <= d * b
  {
  }

  function Effective(budget: int): nat {
    if budget <= 0 then DEFAULT_BUDGET else budget
  }

  lemma SortedRequiredFirst(items: seq<Item>)
    requires InOrder(items, Sooner)
    ensures RequiredFirst(items)
  {
  }

  // dispatch says whether there is a dispatcher to call; toolCalls counts its calls.
  method Decide(budget: int, pack: Pack, dispatch: bool) returns (d: Decision)
    ensures d.budgetBytes == Effective(budget) && d.requestedBytes == pack.bytes
    ensures Effective(budget) == if budget <= 0 then 262144 else budget
    ensures d.remainingBytes == d.budgetBytes - Bytes(d.included) && d.remainingBytes >= 0
    ensures d.itemsRequired == |RequiredOf(pack.items)| && d.itemsIncluded == |RequiredOf(d.included)|
    ensures d.verdict == Refuse <==> Bytes(RequiredOf(pack.items)) > Effective(budget) || !AnchorsKept(pack)
    ensures d.verdict == Admit <==> Bytes(pack.items) <= Effective(budget) && AnchorsKept(pack)
    ensures d.reason == RequiredOverflow <==> Bytes(RequiredOf(pack.items)) > Effective(budget)
    ensures d.requiredOverflow <==> d.reason == RequiredOverflow
    ensures d.reason == AnchorsLost <==> Bytes(RequiredOf(pack.items)) <= Effective(budget) && !AnchorsKept(pack)
    ensures (d.verdict == Admit <==> d.reason == BudgetFit) && (d.verdict == Degrade <==> d.reason == OptionalDropped)
    ensures d.coverageBps == 10000 <==> d.reason != RequiredOverflow
    ensures d.coverageBps == if d.itemsRequired == 0 then 10000 else d.itemsIncluded * 10000 / d.itemsRequired
    ensures d.droppedOptional > 0 ==> d.verdict == Degrade || d.reason == AnchorsLost
    ensures d.toolCalls == if dispatch && d.verdict != Refuse then 1 else 0
    ensures d.reason != RequiredOverflow ==>
      exists sorted :: IsStableSort(pack.items, sorted, Sooner) && FitsGreedily(sorted, Effective(budget), d)
    ensures d.reason == RequiredOverflow ==>
      exists sorted, i :: IsStableSort(pack.items, sorted, Sooner) && StopsAt(sorted, i, Effective(budget), d.included)
  {
    var effective := Effective(budget);
    SoonerIsStrictWeak();
    SortIsStable(pack.items, Sooner);
    var items := Sort(pack.items, Sooner);
    SortedRequiredFirst(items);
    SameMultiset(items, pack.items);
    hide StrictWeak, InOrder, Sort, RequiredFirst;
    OverflowExact(items, effective);
    RequiredBound(pack.items);
    var required := |RequiredOf(items)|;
    hide *;
    var overflow, included, remaining, dropped := Fill(items, effective);
    var count := |RequiredOf(included)|;
    CoverageExact(count, required);
    if overflow {
      return Decision(Refuse, RequiredOverflow, effective, pack.bytes, remaining, true, 0, required, count,
                      CoverageBps(count, required), 0, included);
    }
    var lost := CheckAnchors(pack);
    d := Decision(if dropped > 0 then Degrade else Admit, if dropped > 0 then OptionalDropped else BudgetFit,
                  effective, pack.bytes, remaining, false, dropped, required, count,
                  CoverageBps(count, required), 0, included);
    if lost > 0 {
      d := d.(verdict := Refuse, reason := AnchorsLost, requiredOverflow := false);
    } else if dispatch {
      d := d.(toolCalls := 1);
    }
    Fits(items, effective, d);
  }

  // The i-th item is required and does not fit what those taken before it leave.
  predicate StopsAt(items: seq<Item>, i: nat, budget: nat, included: seq<Item>) {
    && i < |items| && items[i].required && included == Taken(items[..i], budget)
    && items[i].bytes > budget - Bytes(included)
  }

  // The loop of Decide over the sorted items; on overflow it stops at a required item.
  method Fill(items: seq<Item>, budget: nat)
      returns (overflow: bool, included: seq<Item>, remaining: nat, dropped: nat)
    requires RequiredFirst(items)
    ensures remaining == budget - Bytes(included)
    ensures overflow <==> Bytes(RequiredOf(items)) > budget
    ensures overflow ==> |RequiredOf(included)| < |RequiredOf(items)|
    ensures overflow ==> exists i :: StopsAt(items, i, budget, included)
    ensures !overflow ==> included == Taken(items, budget) && dropped == |Left(items, budget)|
    ensures !overflow ==> multiset(included) + multiset(Left(items, budget)) == multiset(items)
    ensures !overflow ==> RequiredOf(included) == RequiredOf(items)
    ensures !overflow ==> (dropped == 0 <==> Bytes(items) <= budget)
    ensures !overflow ==> forall x :: x in Left(items, budget) ==> !x.required && x.bytes > remaining
  {
    OverflowExact(items, budget);
    remaining, included, dropped := budget, [], 0;
    assert InProgress(items, 0, budget, included, remaining, dropped) && Bytes(included) == 0 by {
      assert items[0..] == items;
    }
    hide *;
    TakenNone(items, budget);
    for i := 0 to |items|
      invariant included == Taken(items[..i], budget)
      invariant remaining == budget - Bytes(included)
      invariant InProgress(items, i, budget, included, remaining, dropped)
    {
      var item := items[i];
      TakenNext(items, i, budget);
      if item.bytes > remaining {
        if item.required {
          assert StopsAt(items, i, budget, included) by {
            StopsHere(items, i, budget, included);
          }
          ProgressOverflows(items, i, budget, included, remaining, dropped);
          return true, included, remaining, dropped;
        }
        ProgressDrops(items, i, budget, included, remaining, dropped);
        dropped := dropped + 1;
      } else {
        ProgressTakes(items, i, budget, included, remaining, dropped);
        included := included + [item];
        remaining := remaining - item.bytes;
      }
    }
    ProgressEnds(items, budget, included, remaining, dropped);
    overflow := false;
  }

  lemma TakenNone(items: seq<Item>, budget: nat)
    ensures Taken(items[..0], budget) == []
  {
  }

  lemma StopsHere(items: seq<Item>, i: nat, budget: nat, included: seq<Item>)
    requires i < |items| && items[i].required && included == Taken(items[..i], budget)
    requires items[i].bytes > budget - Bytes(included)
    ensures StopsAt(items, i, budget, included)
  {
  }

  lemma Fits(items: seq<Item>, budget: nat, d: Decision)
    requires d.included == Taken(items, budget) && d.droppedOptional == |Left(items, budget)|
    requires multiset(d.included) + multiset(Left(items, budget)) == multiset(items)
    requires RequiredOf(d.included) == RequiredOf(items)
    requires forall x :: x in Left(items, budget) ==> !x.required && x.bytes > d.remainingBytes
    ensures FitsGreedily(items, budget, d)
  {
  }

  // The state of the loop before the i-th item.
  ghost predicate InProgress(items: seq<Item>, i: nat, budget: nat, included: seq<Item>, remaining: nat, dropped: nat)
    requires i <= |items|
  {
    && included + Taken(items[i..], remaining) == Taken(items, budget)
    && dropped + |Left(items[i..], remaining)| == |Left(items, budget)|
    && RequiredOf(Left(items[i..], remaining)) == RequiredOf(Left(items, budget))
    && |RequiredOf(included)| <= |RequiredOf(items[..i])|
  }

  lemma Unfold(items: seq<Item>, i: nat)
    requires i < |items|
    ensures items[i..] != [] && items[i..][0] == items[i] && items[i..][1..] == items[i + 1..]
    ensures RequiredOf(items[..i + 1]) == RequiredOf(items[..i]) + if items[i].required then [items[i]] else []
    ensures |RequiredOf(items[..i + 1])| <= |RequiredOf(items)|
  {
    assert items[..i + 1] == items[..i] + [items[i]];
    assert items == items[..i + 1] + items[i + 1..];
    BytesConcat(items[..i], [items[i]]);
    BytesConcat(items[..i + 1], items[i + 1..]);
    assert [items[i]][1..] == [];
  }

  lemma ProgressOverflows(items: seq<Item>, i: nat, budget: nat, included: seq<Item>, remaining: nat, dropped: nat)
    requires i < |items| && InProgress(items, i, budget, included, remaining, dropped)
    requires items[i].bytes > remaining && items[i].required
    ensures RequiredOf(Left(items, budget)) != [] && |RequiredOf(included)| < |RequiredOf(items)|
  {
    Unfold(items, i);
  }

  lemma ProgressDrops(items: seq<Item>, i: nat, budget: nat, included: seq<Item>, remaining: nat, dropped: nat)
    requires i < |items| && InProgress(items, i, budget, included, remaining, dropped)
    requires items[i].bytes > remaining && !items[i].required
    ensures InProgress(items, i + 1, budget, included, remaining, dropped + 1)
  {
    Unfold(items, i);
  }

  lemma ProgressTakes(items: seq<Item>, i: nat, budget: nat, included: seq<Item>, remaining: nat, dropped: nat)
    requires i < |items| && InProgress(items, i, budget, included, remaining, dropped)
    requires items[i].bytes <= remaining
    ensures InProgress(items, i + 1, budget, included + [items[i]], remaining - items[i].bytes, dropped)
    ensures Bytes(included + [items[i]]) == Bytes(included) + items[i].bytes
  {
    Unfold(items, i);
    BytesConcat(included, [items[i]]);
    assert [items[i]][1..] == [];
    var rest := Taken(items[i + 1..], remaining - items[i].bytes);
    assert included + ([items[i]] + rest) == (included + [items[i]]) + rest;
  }

  lemma ProgressEnds(items: seq<Item>, budget: nat, included: seq<Item>, remaining: nat, dropped: nat)
    requires InProgress(items, |items|, budget, included, remaining, dropped) && RequiredFirst(items)
    ensures included == Taken(items, budget) && dropped == |Left(items, budget)|
    ensures RequiredOf(Left(items, budget)) == [] && Bytes(RequiredOf(items)) <= budget
    ensures RequiredOf(included) == RequiredOf(items)
    ensures dropped == 0 <==> Bytes(items) <= budget
    ensures multiset(included) + multiset(Left(items, budget)) == multiset(items)
    ensures forall x :: x in Left(items, budget) ==> !x.required && x.bytes > budget - Bytes(included)
  {
    assert included + [] == included;
    GreedyPartitions(items, budget);
    GreedyIsMaximal(items, budget);
    OverflowExact(items, budget);
    OnlyOptional(Left(items, budget));
  }

  lemma {:induction false} OnlyOptional(items: seq<Item>)
    requires RequiredOf(items) == []
    ensures forall x :: x in items ==> !x.required
  {
    if items != [] {
      OnlyOptional(items[1..]);
    }
  }

  // The decision takes what greedy filling takes, keeps every required item, and can take nothing more.
  ghost predicate FitsGreedily(sorted: seq<Item>, budget: nat, d: Decision) {
    var left := Left(sorted, budget);
    && d.included == Taken(sorted, budget)
    && d.droppedOptional == |left|
    && multiset(d.included) + multiset(left) == multiset(sorted)
    && RequiredOf(d.included) == RequiredOf(sorted)
    && forall x :: x in left ==> !x.required && x.bytes > d.remainingBytes
  }
}
