// The persisted run record's status machine, and trees, patches and commits as git keeps them.
module RunState {
  datatype Status = Open | Reviewed | Applied | Discarded | Corrupted

  // Run.Transition: any status may become corrupted.
  predicate Transition(from: Status, next: Status) {
    || from == next
    || next == Corrupted
    || (from == Open && (next == Reviewed || next == Discarded))
    || (from == Reviewed && (next == Applied || next == Discarded))
    || (from == Corrupted && next == Discarded)
  }

  // Besides staying as it is and becoming corrupted a run is reviewed, then applied or discarded; an open
  // or corrupted one can only be discarded as well.
  lemma TransitionPairs(from: Status, next: Status)
    ensures Transition(from, next) <==> from == next || next == Corrupted || (from, next) in {
      (Open, Reviewed), (Open, Discarded), (Reviewed, Applied), (Reviewed, Discarded), (Corrupted, Discarded)}
  {
  }

  type Path = string
  type Tree = map<Path, string>

  datatype Change = Removed | Written(content: string)

  // A patch lists the files that differ from the base.
  type Patch = map<Path, Change>

  function Diff(base: Tree, tree: Tree): Patch {
    map p | p in base.Keys + tree.Keys && !(p in base && p in tree && base[p] == tree[p]) ::
      if p in tree then Written(tree[p]) else Removed
  }

  function Patched(base: Tree, patch: Patch): Tree {
    map p | p in base.Keys + patch.Keys && !(p in patch && patch[p].Removed?) ::
      if p in patch then patch[p].content else base[p]
  }

  // A patch carries the whole tree.
  lemma PatchRoundTrip(base: Tree, tree: Tree)
    ensures Patched(base, Diff(base, tree)) == tree
  {
    var patch := Diff(base, tree);
    forall p ensures p in Patched(base, patch) <==> p in tree {
    }
  }

  lemma SamePatchSameTree(base: Tree, one: Tree, two: Tree)
    requires Diff(base, one) == Diff(base, two)
    ensures one == two
  {
    PatchRoundTrip(base, one);
    PatchRoundTrip(base, two);
  }

  lemma EmptyPatchIsBase(base: Tree, tree: Tree)
    ensures Diff(base, tree) == map[] <==> tree == base
  {
    PatchRoundTrip(base, tree);
    if Diff(base, tree) == map[] {
      assert Patched(base, map[]) == base;
    }
  }

  type Sha = string

  datatype Commit = Commit(parent: Sha, tree: Tree)
}
