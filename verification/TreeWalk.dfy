// Bounded walks over a directory tree: the safety walk that gates removal, the removal itself, and
// the walk that only measures. All three thread one node budget through the recursion.
module TreeWalk {
  const MAX_INVENTORY: nat := 2048
  const MAX_DEPTH: nat := 16
  const MAX_TREE_STAT: nat := 500000
  const MAX_MEASURE_DEPTH: nat := 64

  // The zero time, in seconds of the Unix epoch.
  const ZERO_TIME: int := -62135596800

  // What lstat says of a path. A directory lists its children in name order; it is readable when
  // it can be opened and listed, writable when entries can be removed from it.
  datatype Tree =
    | File(size: nat, mtime: int)
    | Dir(mtime: int, readable: bool, writable: bool, children: seq<Tree>)
    | Link(mtime: int)
    | Special(mtime: int)
    | Gone

  function Nodes(t: Tree): (n: nat)
    ensures n >= 1
  {
    if t.Dir? then 1 + NodesOf(t.children) else 1
  }

  function NodesOf(ts: seq<Tree>): nat {
    if ts == [] then 0 else NodesOf(ts[..|ts| - 1]) + Nodes(ts[|ts| - 1])
  }

  // The bytes of the regular files of a tree.
  function Bytes(t: Tree): nat {
    match t
    case File(size, _) => size
    case Dir(_, _, _, children) => BytesOf(children)
    case _ => 0
  }

  function BytesOf(ts: seq<Tree>): nat {
    if ts == [] then 0 else BytesOf(ts[..|ts| - 1]) + Bytes(ts[|ts| - 1])
  }

  // The symbolic links, special files and vanished entries of a tree.
  function Foreign(t: Tree): nat {
    match t
    case File(_, _) => 0
    case Dir(_, _, _, children) => ForeignOf(children)
    case _ => 1
  }

  function ForeignOf(ts: seq<Tree>): nat {
    if ts == [] then 0 else ForeignOf(ts[..|ts| - 1]) + Foreign(ts[|ts| - 1])
  }

  ghost predicate Occurs(mtime: int, t: Tree) {
    match t
    case Dir(m, _, _, children) => mtime == m || exists i :: 0 <= i < |children| && Occurs(mtime, children[i])
    case File(_, m) => mtime == m
    case Link(m) => mtime == m
    case Special(m) => mtime == m
    case Gone => false
  }

  ghost predicate Newest(mtime: int, t: Tree) {
    Occurs(mtime, t) && forall m :: Occurs(m, t) ==> m <= mtime
  }

  // Only regular files and readable directories.
  ghost predicate Plain(t: Tree) {
    match t
    case File(_, _) => true
    case Dir(_, readable, _, children) => readable && forall i :: 0 <= i < |children| ==> Plain(children[i])
    case _ => false
  }

  // Nothing that a measuring walk cannot look into.
  ghost predicate Open(t: Tree) {
    match t
    case Dir(_, readable, _, children) => readable && forall i :: 0 <= i < |children| ==> Open(children[i])
    case Gone => false
    case _ => true
  }

  // No node lies below the given level.
  ghost predicate Within(t: Tree, depth: nat, limit: nat) {
    depth <= limit && (t.Dir? ==> forall i :: 0 <= i < |t.children| ==> Within(t.children[i], depth + 1, limit))
  }

  // No directory lies below the given level.
  ghost predicate DirsWithin(t: Tree, depth: nat, limit: nat) {
    t.Dir? ==> depth <= limit && forall i :: 0 <= i < |t.children| ==> DirsWithin(t.children[i], depth + 1, limit)
  }

  // Every directory with entries lets them be removed.
  ghost predicate Erasable(t: Tree) {
    t.Dir? ==> (t.children != [] ==> t.writable) && forall i :: 0 <= i < |t.children| ==> Erasable(t.children[i])
  }

  lemma PrefixStep(ts: seq<Tree>, i: nat)
    requires i < |ts|
    ensures NodesOf(ts[..i + 1]) == NodesOf(ts[..i]) + Nodes(ts[i])
    ensures BytesOf(ts[..i + 1]) == BytesOf(ts[..i]) + Bytes(ts[i])
    ensures ForeignOf(ts[..i + 1]) == ForeignOf(ts[..i]) + Foreign(ts[i])
  {
    assert ts[..i + 1][..i] == ts[..i];
  }

  lemma {:induction false} PrefixFits(ts: seq<Tree>, i: nat)
    requires i <= |ts|
    ensures NodesOf(ts[..i]) <= NodesOf(ts)
    decreases |ts| - i
  {
    if i == |ts| {
      assert ts[..i] == ts;
    } else {
      PrefixStep(ts, i);
      PrefixFits(ts, i + 1);
    }
  }

  // What the safety walk decides: a plain tree, no node too deep, no node too many.
  ghost predicate StatsFit(t: Tree, depth: nat, budget: nat) {
    Plain(t) && Within(t, depth, MAX_DEPTH) && budget + Nodes(t) <= MAX_INVENTORY
  }

  ghost predicate NewestSoFar(newest: int, t: Tree, i: nat)
    requires t.Dir? && i <= |t.children|
  {
    && (newest == t.mtime || exists j :: 0 <= j < i && Occurs(newest, t.children[j]))
    && t.mtime <= newest
    && forall j, m :: 0 <= j < i && Occurs(m, t.children[j]) ==> m <= newest
  }

  lemma NewestNext(newest: int, child: int, t: Tree, i: nat)
    requires t.Dir? && i < |t.children|
    requires NewestSoFar(newest, t, i) && Newest(child, t.children[i])
    ensures NewestSoFar(if child > newest then child else newest, t, i + 1)
  {
  }

  // The totals after the first i entries of a directory, all of them safe.
  ghost predicate SafeUpTo(t: Tree, i: nat, depth: nat, budget: nat, bytes: nat, newest: int, spent: nat)
    requires t.Dir? && i <= |t.children|
  {
    && bytes == BytesOf(t.children[..i]) && spent == budget + 1 + NodesOf(t.children[..i])
    && spent <= MAX_INVENTORY && NewestSoFar(newest, t, i)
    && forall j :: 0 <= j < i ==> Plain(t.children[j]) && Within(t.children[j], depth + 1, MAX_DEPTH)
  }

  // A walk that found the tree safe has its exact totals.
  ghost predicate Stats(t: Tree, depth: nat, budget: nat, bytes: nat, newest: int, safe: bool, spent: nat) {
    && (safe <==> StatsFit(t, depth, budget))
    && (safe ==> bytes == Bytes(t) && Newest(newest, t) && spent == budget + Nodes(t))
  }

  lemma SafeGoesOn(
    t: Tree, i: nat, depth: nat, budget: nat, bytes: nat, newest: int, spent: nat, b: nat, n: int, s: bool, k: nat)
    requires t.Dir? && i < |t.children| && SafeUpTo(t, i, depth, budget, bytes, newest, spent)
    requires Stats(t.children[i], depth + 1, spent, b, n, s, k)
    ensures s ==> SafeUpTo(t, i + 1, depth, budget, bytes + b, if n > newest then n else newest, k)
    ensures !s ==> !StatsFit(t, depth, budget)
  {
    PrefixStep(t.children, i);
    PrefixFits(t.children, i + 1);
    if s {
      NewestNext(newest, n, t, i);
    }
    hide Newest, NewestSoFar;
  }

  lemma SafeEnds(t: Tree, depth: nat, budget: nat, bytes: nat, newest: int, spent: nat)
    requires t.Dir? && t.readable && depth <= MAX_DEPTH && SafeUpTo(t, |t.children|, depth, budget, bytes, newest, spent)
    ensures Stats(t, depth, budget, bytes, newest, true, spent)
  {
    assert t.children[..|t.children|] == t.children;
  }

  // treeStatsBounded. spent is the budget after the walk.
  method TreeStats(t: Tree, depth: nat, budget: nat) returns (bytes: nat, newest: int, safe: bool, spent: nat)
    ensures Stats(t, depth, budget, bytes, newest, safe, spent)
    decreases t
  {
    spent := budget;
    if depth > MAX_DEPTH || budget >= MAX_INVENTORY {
      return 0, ZERO_TIME, false, spent;
    }
    spent := budget + 1;
    match t
    case Gone => return 0, ZERO_TIME, false, spent;
    case Link(_) => return 0, ZERO_TIME, false, spent;
    case Special(mtime) => return 0, mtime, false, spent;
    case File(size, mtime) => return size, mtime, true, spent;
    case Dir(mtime, readable, _, children) =>
      if !readable {
        return 0, ZERO_TIME, false, spent;
      }
      newest := mtime;
      bytes := 0;
      assert SafeUpTo(t, 0, depth, budget, bytes, newest, spent);
      hide *;
      for i := 0 to |children|
        invariant SafeUpTo(t, i, depth, budget, bytes, newest, spent)
      {
        var b, n, s, k := TreeStats(children[i], depth + 1, spent);
        SafeGoesOn(t, i, depth, budget, bytes, newest, spent, b, n, s, k);
        if !s {
          UnsafeStats(t, depth, budget, bytes, newest, k);
          return bytes, newest, false, k;
        }
        bytes, spent := bytes + b, k;
        if n > newest {
          newest := n;
        }
      }
      SafeEnds(t, depth, budget, bytes, newest, spent);
      safe := true;
  }

  lemma UnsafeStats(t: Tree, depth: nat, budget: nat, bytes: nat, newest: int, spent: nat)
    requires !StatsFit(t, depth, budget)
    ensures Stats(t, depth, budget, bytes, newest, false, spent)
  {
  }

  datatype Outcome = Removed | CapHit | Unsafe | Unreadable | Denied

  // What removal needs: as the safety walk, but only directories are held to the depth limit, and
  // entries must be removable.
  ghost predicate RemovalFits(t: Tree, depth: nat, budget: nat) {
    t.Dir? && Plain(t) && DirsWithin(t, depth, MAX_DEPTH) && budget + NodesOf(t.children) <= MAX_INVENTORY
  }

  // What is left of the children once the first i are gone.
  function Left(t: Tree, i: nat): Tree
    requires t.Dir? && i <= |t.children|
  {
    t.(children := t.children[i..])
  }

  ghost predicate AllPlain(ts: seq<Tree>, i: nat, depth: nat)
    requires i <= |ts|
  {
    forall j :: 0 <= j < i ==> Plain(ts[j]) && DirsWithin(ts[j], depth, MAX_DEPTH) && Erasable(ts[j])
  }

  // Replacing the first entry by what a failed removal left of it.
  lemma ForeignLeft(ts: seq<Tree>, i: nat, rest: Tree)
    requires i < |ts| && ForeignOf(ts[..i]) == 0 && Foreign(rest) == Foreign(ts[i])
    ensures ForeignOf([rest] + ts[i + 1..]) == ForeignOf(ts)
    ensures ForeignOf(ts[i..]) == ForeignOf(ts)
  {
    ForeignSingle(ts[i]);
    ForeignSingle(rest);
    hide ForeignOf, Foreign;
    ForeignConcat(ts[..i], ts[i..]);
    assert ts[..i] + ts[i..] == ts;
    assert ts[i..] == [ts[i]] + ts[i + 1..];
    ForeignConcat([ts[i]], ts[i + 1..]);
    ForeignConcat([rest], ts[i + 1..]);
  }

  lemma ForeignSingle(t: Tree)
    ensures ForeignOf([t]) == Foreign(t)
  {
    assert [t][..0] == [];
  }

  lemma {:induction false} ForeignConcat(a: seq<Tree>, b: seq<Tree>)
    ensures ForeignOf(a + b) == ForeignOf(a) + ForeignOf(b)
    decreases |b|
  {
    if b == [] {
      assert a + b == a;
    } else {
      var n := |b| - 1;
      ForeignConcat(a, b[..n]);
      assert (a + b)[..|a| + n] == a + b[..n];
    }
  }

  lemma {:induction false} PlainHasNoForeign(t: Tree)
    requires Plain(t)
    ensures Foreign(t) == 0
    decreases t, 0
  {
    if t.Dir? {
      PlainOnes(t.children, |t.children|);
      assert t.children[..|t.children|] == t.children;
    }
  }

  lemma {:induction false} PlainOnes(ts: seq<Tree>, i: nat)
    requires i <= |ts| && forall j :: 0 <= j < i ==> Plain(ts[j])
    ensures ForeignOf(ts[..i]) == 0
    decreases ts, i
  {
    if i > 0 {
      PlainOnes(ts, i - 1);
      PrefixStep(ts, i - 1);
      PlainHasNoForeign(ts[i - 1]);
    }
  }

  // The same for one entry of a directory.
  ghost predicate EntryFits(t: Tree, depth: nat, budget: nat) {
    Plain(t) && DirsWithin(t, depth, MAX_DEPTH) && budget + Nodes(t) <= MAX_INVENTORY
  }

  lemma EntryOfFit(t: Tree, depth: nat, base: nat, i: nat)
    requires RemovalFits(t, depth, base) && i < |t.children|
    ensures EntryFits(t.children[i], depth + 1, base + NodesOf(t.children[..i]))
  {
    PrefixStep(t.children, i);
    PrefixFits(t.children, i + 1);
  }

  // One turn of the loop of removeRootContents. rest is what is left of the entry on failure.
  method RemoveEntry(entry: Tree, writable: bool, depth: nat, budget: nat)
      returns (outcome: Outcome, rest: Tree, spent: nat)
    requires budget <= MAX_INVENTORY
    ensures outcome == Removed <==> EntryFits(entry, depth + 1, budget) && Erasable(entry) && writable
    ensures outcome == Removed ==> spent == budget + Nodes(entry)
    ensures EntryFits(entry, depth + 1, budget) ==> outcome in {Removed, Denied}
    ensures outcome != Removed ==> Foreign(rest) == Foreign(entry)
    decreases entry, 1
  {
    rest, spent := entry, budget;
    if budget >= MAX_INVENTORY {
      return CapHit, rest, spent;
    }
    if entry.Gone? || entry.Link? || entry.Special? {
      return Unsafe, rest, spent;
    }
    spent := budget + 1;
    if entry.Dir? {
      outcome, rest, spent := RemoveContents(entry, depth + 1, spent);
      if outcome != Removed {
        return;
      }
    }
    outcome := if writable then Removed else Denied;
  }

  // removeRootContents: empties a directory, entry by entry. left is what it leaves of t.
  method RemoveContents(t: Tree, depth: nat, budget: nat) returns (outcome: Outcome, left: Tree, spent: nat)
    requires t.Dir? && budget <= MAX_INVENTORY
    ensures left.Dir? && left == t.(children := left.children)
    ensures outcome == Removed <==> RemovalFits(t, depth, if depth == 0 then budget + 1 else budget) && Erasable(t)
    ensures outcome == Removed ==> left.children == []
    ensures outcome == Removed ==> spent == (if depth == 0 then budget + 1 else budget) + NodesOf(t.children)
    ensures RemovalFits(t, depth, if depth == 0 then budget + 1 else budget) ==> outcome in {Removed, Denied}
    ensures ForeignOf(left.children) == ForeignOf(t.children)
    decreases t, 0
  {
    left, spent := t, budget;
    if depth > MAX_DEPTH {
      return CapHit, left, spent;
    }
    if depth == 0 {
      if budget >= MAX_INVENTORY {
        return CapHit, left, spent;
      }
      spent := budget + 1;
    }
    if !t.readable {
      return Unreadable, left, spent;
    }
    ghost var base := spent;
    var children := t.children;
    for i := 0 to |children|
      invariant left == Left(t, i) && spent == base + NodesOf(children[..i]) && spent <= MAX_INVENTORY
      invariant i > 0 ==> t.writable
      invariant AllPlain(children, i, depth + 1)
    {
      PlainOnes(children, i);
      PrefixStep(children, i);
      var outcome', rest, k := RemoveEntry(children[i], t.writable, depth, spent);
      if outcome' != Removed {
        ForeignLeft(children, i, rest);
        if RemovalFits(t, depth, base) {
          EntryOfFit(t, depth, base, i);
        }
        return outcome', left.(children := [rest] + children[i + 1..]), k;
      }
      spent := k;
      left := Left(t, i + 1);
    }
    assert children[..|children|] == children;
    PlainOnes(children, |children|);
    outcome := Removed;
  }

  lemma {:induction false} WithinCoversDirs(t: Tree, depth: nat, limit: nat)
    requires Within(t, depth, limit)
    ensures DirsWithin(t, depth, limit)
  {
    if t.Dir? {
      forall i | 0 <= i < |t.children| ensures DirsWithin(t.children[i], depth + 1, limit) {
        WithinCoversDirs(t.children[i], depth + 1, limit);
      }
    }
  }

  // removeTree on an unchanged directory. left is what remains of it, Gone when nothing does;
  // parentWritable says whether the final removal of the root entry is allowed.
  method RemoveTree(t: Tree, parentWritable: bool) returns (outcome: Outcome, left: Tree)
    requires t.Dir?
    ensures outcome == Removed <==> RemovalFits(t, 0, 1) && Erasable(t) && parentWritable
    ensures outcome == Removed <==> left == Gone
    ensures RemovalFits(t, 0, 1) ==> outcome in {Removed, Denied}
    ensures outcome != Removed ==> Foreign(left) == Foreign(t)
  {
    var spent;
    outcome, left, spent := RemoveContents(t, 0, 0);
    if outcome == Removed {
      if parentWritable {
        left := Gone;
      } else {
        outcome := Denied;
      }
    }
  }

  // What the safety walk calls safe, removal can finish: its caps never stop it.
  lemma SafeIsRemovable(t: Tree)
    requires t.Dir? && StatsFit(t, 0, 0)
    ensures RemovalFits(t, 0, 1)
  {
    WithinCoversDirs(t, 0, MAX_DEPTH);
  }

  // The two limits differ only in that removal admits entries other than directories one level
  // below the deepest directory.
  lemma {:induction false} OneLevelMore(t: Tree, depth: nat, limit: nat)
    requires DirsWithin(t, depth, limit) && (!t.Dir? ==> depth <= limit + 1)
    ensures Within(t, depth, limit + 1)
  {
    if t.Dir? {
      forall i | 0 <= i < |t.children| ensures Within(t.children[i], depth + 1, limit + 1) {
        OneLevelMore(t.children[i], depth + 1, limit);
      }
    }
  }

  // So a tree that can be removed is safe exactly when nothing in it lies below the depth limit.
  lemma SafeExactly(t: Tree)
    requires t.Dir?
    ensures StatsFit(t, 0, 0) <==> RemovalFits(t, 0, 1) && Within(t, 0, MAX_DEPTH)
  {
    if Within(t, 0, MAX_DEPTH) {
      WithinCoversDirs(t, 0, MAX_DEPTH);
    }
  }

  function Nest(n: nat, t: Tree): Tree {
    if n == 0 then t else Dir(ZERO_TIME, true, true, [Nest(n - 1, t)])
  }

  lemma {:induction false} NestMeans(n: nat, t: Tree, depth: nat, limit: nat)
    requires t.File?
    ensures Plain(Nest(n, t)) && Nodes(Nest(n, t)) == n + 1
    ensures Within(Nest(n, t), depth, limit) <==> depth + n <= limit
    ensures DirsWithin(Nest(n, t), depth, limit) <==> n == 0 || depth + n - 1 <= limit
  {
    if n > 0 {
      NestMeans(n - 1, t, depth + 1, limit);
      var children := [Nest(n - 1, t)];
      assert Nest(n, t).children == children && children[..0] == [] && children[0] == Nest(n - 1, t);
      assert NodesOf(children) == NodesOf(children[..0]) + Nodes(children[0]);
    }
  }

  // The converse of SafeIsRemovable fails for a file seventeen levels down.
  lemma RemovableButNotSafe()
    ensures
      var t := Nest(17, File(1, ZERO_TIME));
      t.Dir? && RemovalFits(t, 0, 1) && !StatsFit(t, 0, 0)
  {
    NestMeans(17, File(1, ZERO_TIME), 0, MAX_DEPTH);
  }

  ghost predicate MeasureFits(t: Tree, depth: nat, budget: nat) {
    Open(t) && Within(t, depth, MAX_MEASURE_DEPTH) && budget + Nodes(t) <= MAX_TREE_STAT
  }

  ghost predicate MeasuredSoFar(t: Tree, i: nat, depth: nat, budget: nat)
    requires t.Dir? && i <= |t.children|
  {
    && (forall j :: 0 <= j < i ==> Open(t.children[j]) && Within(t.children[j], depth + 1, MAX_MEASURE_DEPTH))
    && budget + 1 + NodesOf(t.children[..i]) <= MAX_TREE_STAT
  }

  lemma MeasuredNext(t: Tree, i: nat, depth: nat, budget: nat)
    requires t.Dir? && i < |t.children|
    ensures MeasuredSoFar(t, i + 1, depth, budget) <==>
      MeasuredSoFar(t, i, depth, budget)
      && MeasureFits(t.children[i], depth + 1, budget + 1 + NodesOf(t.children[..i]))
  {
    PrefixStep(t.children, i);
    hide Open, Within;
  }

  lemma MeasuredEnds(t: Tree, depth: nat, budget: nat)
    requires t.Dir? && depth <= MAX_MEASURE_DEPTH && budget < MAX_TREE_STAT
    ensures MeasuredSoFar(t, 0, depth, budget) && NewestSoFar(t.mtime, t, 0)
    ensures MeasureFits(t, depth, budget) <==> t.readable && MeasuredSoFar(t, |t.children|, depth, budget)
  {
    assert t.children[..|t.children|] == t.children;
  }

  lemma NewestEnds(newest: int, t: Tree)
    requires t.Dir? && NewestSoFar(newest, t, |t.children|)
    ensures Newest(newest, t)
  {
  }

  // A measurement never reports too much, and everything exactly when it is complete.
  ghost predicate Measured(
    t: Tree, depth: nat, budget: nat, bytes: nat, newest: int, complete: bool, spent: nat)
  {
    && bytes <= Bytes(t)
    && (complete <==> MeasureFits(t, depth, budget))
    && (complete ==> bytes == Bytes(t) && Newest(newest, t) && spent == budget + Nodes(t))
    && budget <= spent <= budget + Nodes(t)
    && (budget <= MAX_TREE_STAT ==> spent <= MAX_TREE_STAT)
  }

  // The limits of the walks: sixteen levels and 2048 nodes for what is removed, 64 levels and half a
  // million nodes for what is measured.
  lemma LimitsInNumbers(t: Tree)
    ensures StatsFit(t, 0, 0) <==> Plain(t) && Within(t, 0, 16) && Nodes(t) <= 2048
    ensures RemovalFits(t, 0, 1) && t.Dir? ==> DirsWithin(t, 0, 16) && Nodes(t) <= 2048
    ensures MeasureFits(t, 0, 0) <==> Open(t) && Within(t, 0, 64) && Nodes(t) <= 500000
  {
  }

  // The totals after the first i entries of a directory.
  ghost predicate MeasuredUpTo(
    t: Tree, i: nat, depth: nat, budget: nat, bytes: nat, newest: int, complete: bool, spent: nat)
    requires t.Dir? && i <= |t.children|
  {
    && bytes <= BytesOf(t.children[..i])
    && budget < spent <= budget + 1 + NodesOf(t.children[..i]) && spent <= MAX_TREE_STAT
    && (complete <==> MeasuredSoFar(t, i, depth, budget))
    && (complete ==>
          && bytes == BytesOf(t.children[..i]) && NewestSoFar(newest, t, i)
          && spent == budget + 1 + NodesOf(t.children[..i]))
  }

  lemma MeasureStarts(t: Tree, depth: nat, budget: nat)
    requires t.Dir? && t.readable && depth <= MAX_MEASURE_DEPTH && budget < MAX_TREE_STAT
    ensures MeasuredUpTo(t, 0, depth, budget, 0, t.mtime, true, budget + 1)
  {
    MeasuredEnds(t, depth, budget);
    hide MeasuredSoFar, NewestSoFar;
    assert NodesOf([]) == 0 && BytesOf([]) == 0;
  }

  lemma MeasureGoesOn(
    t: Tree, i: nat, depth: nat, budget: nat, bytes: nat, newest: int, complete: bool, spent: nat,
    b: nat, n: int, c: bool, k: nat)
    requires t.Dir? && i < |t.children| && MeasuredUpTo(t, i, depth, budget, bytes, newest, complete, spent)
    requires Measured(t.children[i], depth + 1, spent, b, n, c, k)
    ensures MeasuredUpTo(
      t, i + 1, depth, budget, bytes + b, if n > newest then n else newest, complete && c, k)
  {
    PrefixStep(t.children, i);
    MeasuredNext(t, i, depth, budget);
    if complete && c {
      NewestNext(newest, n, t, i);
    }
    hide MeasuredSoFar, NewestSoFar, Newest, MeasureFits;
  }

  lemma MeasureEnds(t: Tree, depth: nat, budget: nat, bytes: nat, newest: int, complete: bool, spent: nat)
    requires t.Dir? && t.readable && depth <= MAX_MEASURE_DEPTH && budget < MAX_TREE_STAT
    requires MeasuredUpTo(t, |t.children|, depth, budget, bytes, newest, complete, spent)
    ensures Measured(t, depth, budget, bytes, newest, complete, spent)
  {
    MeasuredEnds(t, depth, budget);
    assert t.children[..|t.children|] == t.children;
    assert Bytes(t) == BytesOf(t.children) && Nodes(t) == 1 + NodesOf(t.children);
    if complete {
      NewestEnds(newest, t);
    }
    hide MeasuredSoFar, NewestSoFar, Newest, MeasureFits;
  }

  // measureTreeBounded. It goes on after a part it could not measure.
  method MeasureTree(t: Tree, depth: nat, budget: nat) returns (bytes: nat, newest: int, complete: bool, spent: nat)
    ensures Measured(t, depth, budget, bytes, newest, complete, spent)
    decreases t
  {
    spent := budget;
    if depth > MAX_MEASURE_DEPTH || budget >= MAX_TREE_STAT {
      return 0, ZERO_TIME, false, spent;
    }
    spent := budget + 1;
    match t
    case Gone => return 0, ZERO_TIME, false, spent;
    case Link(mtime) => return 0, mtime, true, spent;
    case Special(mtime) => return 0, mtime, true, spent;
    case File(size, mtime) => return size, mtime, true, spent;
    case Dir(mtime, readable, _, children) =>
      if !readable {
        return 0, mtime, false, spent;
      }
      bytes, newest, complete := 0, mtime, true;
      MeasureStarts(t, depth, budget);
      hide *;
      for i := 0 to |children|
        invariant MeasuredUpTo(t, i, depth, budget, bytes, newest, complete, spent)
      {
        var b, n, c, k := MeasureTree(children[i], depth + 1, spent);
        MeasureGoesOn(t, i, depth, budget, bytes, newest, complete, spent, b, n, c, k);
        bytes, spent := bytes + b, k;
        if n > newest {
          newest := n;
        }
        if !c {
          complete := false;
        }
      }
      MeasureEnds(t, depth, budget, bytes, newest, complete, spent);
  }
}
