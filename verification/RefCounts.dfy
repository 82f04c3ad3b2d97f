/**
 What a dentry's reference count is made of: one reference per child, one pin for an entry
 that is in the name space, and the references callers hold.
 */
module RefCounts {
  import opened Trees

  /** Every count is what is due, one more for the entries `owed` a dput.  An entry nobody
      holds does not exist. */
  ghost predicate Due(t: Tree<Ref>, count: map<Ref, int>, pinned: set<Ref>, refs: map<Ref, nat>, owed: set<Ref>) {
    && t.Valid() && count.Keys == t.kids.Keys && refs.Keys == t.kids.Keys
    && pinned <= t.kids.Keys && t.root in pinned && owed <= t.kids.Keys
    && forall x :: x in t.kids ==>
         && count[x] == |t.kids[x]| + One(x in pinned) + refs[x] + One(x in owed)
         && count[x] > 0
  }

  function One(b: bool): nat { if b then 1 else 0 }

  lemma DueFacts(t: Tree<Ref>, count: map<Ref, int>, pinned: set<Ref>, refs: map<Ref, nat>, owed: set<Ref>)
    requires Due(t, count, pinned, refs, owed)
    ensures t.Valid() && count.Keys == t.kids.Keys && refs.Keys == t.kids.Keys
    ensures t.root in pinned && pinned <= t.kids.Keys && owed <= t.kids.Keys && t.parent.Keys == t.kids.Keys - {t.root}
    ensures forall x :: x in t.kids ==> count[x] == |t.kids[x]| + One(x in pinned) + refs[x] + One(x in owed)
    ensures forall x :: x in t.kids ==> count[x] > 0
  {
  }

  /** A reference that is not the last one. */
  lemma PutEarlier(t: Tree<Ref>, count: map<Ref, int>, pinned: set<Ref>, refs: map<Ref, nat>, x: Ref)
    requires Due(t, count, pinned, refs, {x}) && count[x] > 1
    ensures Due(t, count[x := count[x] - 1], pinned, refs, {})
  {
    hide Tree.Valid;
  }

  /** The last reference: the entry has no children, no pin and no user, and when it goes its
      parent is owed the reference it held. */
  lemma PutLast(t: Tree<Ref>, count: map<Ref, int>, pinned: set<Ref>, refs: map<Ref, nat>, x: Ref)
    requires Due(t, count, pinned, refs, {x}) && count[x] == 1
    ensures x in t.parent && t.parent[x] in t.kids && t.kids[x] == [] && x !in pinned && refs[x] == 0
    ensures t.Idx(x) < |t.kids[t.parent[x]]|
    ensures Due(Prune(t, x, t.Idx(x)), count - {x}, pinned, refs - {x}, {t.parent[x]})
  {
    hide Tree.Valid;
    DueFacts(t, count, pinned, refs, {x});
    ParentFacts(t, x);
    PruneValid(t, x, t.Idx(x));
  }

  /** A new entry with one reference for the caller takes a reference on its parent. */
  lemma AllocKeeps(t: Tree<Ref>, count: map<Ref, int>, pinned: set<Ref>, refs: map<Ref, nat>, p: Ref, x: Ref)
    requires Due(t, count, pinned, refs, {}) && p in t.kids && x !in t.kids
    ensures p in t.depth && Due(Grow(t, p, x), count[p := count[p] + 1][x := 1], pinned, refs[x := 1], {})
  {
    hide Tree.Valid;
    GrowDepth(t, p);
    GrowValid(t, p, x);
  }

  lemma GrowDepth(t: Tree<Ref>, p: Ref)
    requires t.Valid() && p in t.kids
    ensures p in t.depth
  {
  }

  // Taking a reference or a pin, and owing one back.

  lemma RefTaken(t: Tree<Ref>, count: map<Ref, int>, pinned: set<Ref>, refs: map<Ref, nat>, x: Ref)
    requires Due(t, count, pinned, refs, {}) && x in t.kids
    ensures Due(t, count[x := count[x] + 1], pinned, refs[x := refs[x] + 1], {})
  {
    hide Tree.Valid;
  }

  lemma RefOwed(t: Tree<Ref>, count: map<Ref, int>, pinned: set<Ref>, refs: map<Ref, nat>, x: Ref)
    requires Due(t, count, pinned, refs, {}) && x in refs && refs[x] > 0
    ensures Due(t, count, pinned, refs[x := refs[x] - 1], {x})
  {
    hide Tree.Valid;
  }

  lemma PinTaken(t: Tree<Ref>, count: map<Ref, int>, pinned: set<Ref>, refs: map<Ref, nat>, x: Ref)
    requires Due(t, count, pinned, refs, {}) && x in t.kids && x !in pinned
    ensures Due(t, count[x := count[x] + 1], pinned + {x}, refs, {})
  {
    hide Tree.Valid;
  }

  lemma PinOwed(t: Tree<Ref>, count: map<Ref, int>, pinned: set<Ref>, refs: map<Ref, nat>, x: Ref)
    requires Due(t, count, pinned, refs, {}) && x in pinned && x != t.root
    ensures Due(t, count, pinned - {x}, refs, {x})
  {
    hide Tree.Valid;
  }
}
