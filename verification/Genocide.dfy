/**
 The bookkeeping of the goto walk over the dentry tree in wjfs_d_genocide: which decrements
 are still pending wherever the walk stands, and how each of its moves changes them.
 */
module GenocideWalk {
  import opened Trees

  /** How often the walk standing at position `i` of `p`'s list will still decrement `x`. */
  ghost function Pending(t: Tree<Ref>, live: set<Ref>, p: Ref, i: nat, x: Ref): (n: nat)
    requires t.Valid() && p in t.kids && i <= |t.kids[p]|
    decreases t.depth[p]
  {
    Hits(t, live, p, i, x) +
    if p == t.root then 0
    else (if x == p then 1 else 0) + Pending(t, live, t.parent[p], t.Idx(p) + 1, x)
  }

  /** The number of moves left below `p`, and in all. */
  ghost function MovesBelow(t: Tree<Ref>, p: Ref, i: nat): (n: nat)
    requires t.Valid() && p in t.kids && i <= |t.kids[p]|
    decreases t.bound - t.depth[p], |t.kids[p]| - i
  {
    if i == |t.kids[p]| then 1 else 1 + MovesBelow(t, t.kids[p][i], 0) + MovesBelow(t, p, i + 1)
  }

  ghost function Moves(t: Tree<Ref>, p: Ref, i: nat): (n: nat)
    requires t.Valid() && p in t.kids && i <= |t.kids[p]|
    decreases t.depth[p]
  {
    MovesBelow(t, p, i) + if p == t.root then 0 else Moves(t, t.parent[p], t.Idx(p) + 1)
  }

  /** The walk stands at position `i` of `p`'s list, and every count is its goal plus the
      decrements still pending. */
  ghost predicate Tracks(t: Tree<Ref>, live: set<Ref>, goal: map<Ref, int>, count: map<Ref, int>, p: Ref, i: nat) {
    && t.Valid() && p in t.kids && i <= |t.kids[p]|
    && count.Keys == t.kids.Keys && goal.Keys == t.kids.Keys
    && forall d :: d in t.kids ==> count[d] == goal[d] + Pending(t, live, p, i, d)
  }

  /** Where the counts are headed for. */
  ghost function Start(t: Tree<Ref>, live: set<Ref>, count: map<Ref, int>): (goal: map<Ref, int>)
    requires t.Valid() && count.Keys == t.kids.Keys
    ensures t.root in t.kids && Tracks(t, live, goal, count, t.root, 0)
  {
    map d | d in t.kids :: count[d] - Pending(t, live, t.root, 0, d)
  }

  // The four moves of the walk.

  lemma Skip(t: Tree<Ref>, live: set<Ref>, goal: map<Ref, int>, count: map<Ref, int>, p: Ref, i: nat)
    requires Tracks(t, live, goal, count, p, i) && i < |t.kids[p]| && t.kids[p][i] !in live
    ensures Tracks(t, live, goal, count, p, i + 1) && Moves(t, p, i + 1) < Moves(t, p, i)
  {
  }

  lemma Enter(t: Tree<Ref>, live: set<Ref>, goal: map<Ref, int>, count: map<Ref, int>, p: Ref, i: nat)
    requires Tracks(t, live, goal, count, p, i) && i < |t.kids[p]| && t.kids[p][i] in live
    ensures t.kids[p][i] in t.kids
    ensures Tracks(t, live, goal, count, t.kids[p][i], 0) && Moves(t, t.kids[p][i], 0) < Moves(t, p, i)
  {
    forall x | x in t.kids { PendingInside(t, live, p, i, x); }
    FewerInside(t, p, i);
    hide Tree.Valid, Pending, Moves;
  }

  lemma PendingInside(t: Tree<Ref>, live: set<Ref>, p: Ref, i: nat, x: Ref)
    requires t.Valid() && p in t.kids && i < |t.kids[p]| && t.kids[p][i] in live
    ensures t.kids[p][i] in t.kids && Pending(t, live, p, i, x) == Pending(t, live, t.kids[p][i], 0, x)
  {
    IdxUnique(t, p, i);
  }

  lemma FewerInside(t: Tree<Ref>, p: Ref, i: nat)
    requires t.Valid() && p in t.kids && i < |t.kids[p]|
    ensures t.kids[p][i] in t.kids && Moves(t, t.kids[p][i], 0) < Moves(t, p, i)
  {
    hide Tree.Valid, Tree.Idx;
    ChildFacts(t, p, i);
    assert Moves(t, t.kids[p][i], 0) == MovesBelow(t, t.kids[p][i], 0) + Moves(t, p, i + 1);
  }

  lemma DropLeaf(t: Tree<Ref>, live: set<Ref>, goal: map<Ref, int>, count: map<Ref, int>, p: Ref, i: nat)
    requires Tracks(t, live, goal, count, p, i) && i < |t.kids[p]| && t.kids[p][i] in live
    requires t.kids[p][i] in t.kids && t.kids[t.kids[p][i]] == []
    ensures var c := t.kids[p][i];
            Tracks(t, live, goal, count[c := count[c] - 1], p, i + 1) && Moves(t, p, i + 1) < Moves(t, p, i)
  {
    var c := t.kids[p][i];
    forall x
      ensures Pending(t, live, p, i, x) == Pending(t, live, p, i + 1, x) + if x == c then 1 else 0
    {
      assert Hits(t, live, c, 0, x) == 0;
    }
  }

  lemma Leave(t: Tree<Ref>, live: set<Ref>, goal: map<Ref, int>, count: map<Ref, int>, p: Ref, i: nat)
    requires Tracks(t, live, goal, count, p, i) && i == |t.kids[p]| && p != t.root
    ensures p in t.parent && t.parent[p] in t.kids
    ensures Tracks(t, live, goal, count[p := count[p] - 1], t.parent[p], t.Idx(p) + 1)
    ensures Moves(t, t.parent[p], t.Idx(p) + 1) < Moves(t, p, i)
  {
    forall x | x in t.kids { PendingAbove(t, live, p, x); }
    assert t.parent[p] in t.kids && p in t.parent;
    hide Tree.Valid, Pending;
  }

  lemma PendingAbove(t: Tree<Ref>, live: set<Ref>, p: Ref, x: Ref)
    requires t.Valid() && p in t.parent
    ensures Pending(t, live, p, |t.kids[p]|, x)
            == Pending(t, live, t.parent[p], t.Idx(p) + 1, x) + if x == p then 1 else 0
  {
  }

  /** From the start of the walk to its end every count drops by the number of hits. */
  lemma Landed(t: Tree<Ref>, live: set<Ref>, goal: map<Ref, int>, before: map<Ref, int>, after: map<Ref, int>, i: nat)
    requires Tracks(t, live, goal, before, t.root, 0)
    requires Tracks(t, live, goal, after, t.root, i) && i == |t.kids[t.root]|
    ensures forall d :: d in t.kids ==> after[d] == before[d] - if d != t.root && Reach(t, live, d) then 1 else 0
  {
    forall d | d in t.kids { HitsFromRoot(t, live, d); }
  }
}
