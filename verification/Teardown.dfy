/**
 The bookkeeping of the leaf-first teardown in wjfs_shrink_dcache_for_umount_subtree.
 */
module UmountTeardown {
  import opened Trees

  /** The children of `x` are unhashed. */
  ghost predicate Dropped(t: Tree<Ref>, hashed: set<Ref>, x: Ref) {
    x in t.kids && forall c :: c in t.kids[x] ==> c !in hashed
  }

  /** The teardown of `t0` has freed `log` and stands at `cur` in what is left, `t`.  Every
      remaining entry has lost one reference per child freed, and the entries on the way to
      `cur` are unhashed with all their children. */
  ghost predicate Shrinking(t0: Tree<Ref>, was: map<Ref, int>, t: Tree<Ref>, count: map<Ref, int>, hashed: set<Ref>,
                            cur: Ref, log: seq<Ref>) {
    && t0.Valid() && t.Valid() && t.root == t0.root && cur in t.kids && Leftmost(t, cur)
    && count.Keys == t.kids.Keys && was.Keys == t0.kids.Keys && t.kids.Keys <= t0.kids.Keys
    && (forall x :: x in t.kids ==> count[x] - |t.kids[x]| == was[x] - |t0.kids[x]|)
    && (forall x :: x in log ==> x in t0.kids && was[x] == |t0.kids[x]|)
    && cur !in hashed && (forall x :: x in Ancestors(t, cur) && x != cur ==> x !in hashed && Dropped(t, hashed, x))
    && log + Teardown(t) == Teardown(t0)
  }

  lemma ShrinkStart(t: Tree<Ref>, count: map<Ref, int>, hashed: set<Ref>)
    requires t.Valid() && count.Keys == t.kids.Keys && t.root !in hashed
    ensures Shrinking(t, count, t, count, hashed, t.root, [])
  {
  }

  /** Down to the first child, once all children are unhashed. */
  lemma ShrinkDown(t0: Tree<Ref>, was: map<Ref, int>, t: Tree<Ref>, count: map<Ref, int>, hashed: set<Ref>,
                   cur: Ref, log: seq<Ref>, hashed': set<Ref>)
    requires Shrinking(t0, was, t, count, hashed, cur, log) && t.kids[cur] != []
    requires hashed' <= hashed && Dropped(t, hashed', cur)
    ensures Shrinking(t0, was, t, count, hashed', t.kids[cur][0], log)
    ensures t.depth.Keys == t.kids.Keys && t.depth[cur] < t.depth[t.kids[cur][0]] <= t.bound
  {
    hide Tree.Valid, Teardown;
    ChildFacts(t, cur, 0);
    var c := t.kids[cur][0];
    forall x | x in Ancestors(t, c) && x != c ensures x !in hashed' && Dropped(t, hashed', x) {
      if x != cur { assert Dropped(t, hashed, x); }
    }
  }

  /** The leftmost leaf is freed and its parent loses a child and a reference. */
  lemma ShrinkFree(t0: Tree<Ref>, was: map<Ref, int>, t: Tree<Ref>, count: map<Ref, int>, hashed: set<Ref>,
                   cur: Ref, log: seq<Ref>)
    requires Shrinking(t0, was, t, count, hashed, cur, log) && t.kids[cur] == [] && count[cur] == 0 && cur != t.root
    ensures cur in t.parent && t.parent[cur] in t.kids && |t.kids[t.parent[cur]]| > 0 && t.parent[cur] != cur
    ensures t.kids[t.parent[cur]][0] == cur
    ensures Shrinking(t0, was, Prune(t, cur, 0), count[t.parent[cur] := count[t.parent[cur]] - 1] - {cur}, hashed,
                      t.parent[cur], log + [cur])
    ensures Dropped(Prune(t, cur, 0), hashed, t.parent[cur])
  {
    hide Tree.Valid, Teardown, Prune, Ancestors;
    RootFacts(t);
    ParentFacts(t, cur);
    TeardownTakesFirstLeaf(t, cur);
    var p, u := t.parent[cur], Prune(t, cur, 0);
    SpineKept(t, u, cur, p);
    AncestorsNest(t, cur);
    PruneFirstLeaf(t, cur);
    DroppedKept(t, u, cur, hashed, p);
    forall x | x in Ancestors(u, p) && x != p ensures x !in hashed && Dropped(u, hashed, x) {
      AncestorsAreAbove(u, p, x);
      DroppedKept(t, u, cur, hashed, x);
    }
    assert log + ([cur] + Teardown(u)) == log + [cur] + Teardown(u);
  }

  lemma DroppedKept(t: Tree<Ref>, u: Tree<Ref>, d: Ref, hashed: set<Ref>, x: Ref)
    requires FirstLeafGone(t, u, d) && Dropped(t, hashed, x) && x in u.kids
    ensures Dropped(u, hashed, x)
  {
    hide Tree.Valid;
  }

  lemma AncestorsNest(t: Tree<Ref>, d: Ref)
    requires t.Valid() && d in t.parent
    ensures Ancestors(t, t.parent[d]) <= Ancestors(t, d)
  {
  }

  /** The entry the teardown stops at is the next one due. */
  lemma ShrinkDue(t0: Tree<Ref>, was: map<Ref, int>, t: Tree<Ref>, count: map<Ref, int>, hashed: set<Ref>,
                  cur: Ref, log: seq<Ref>)
    requires Shrinking(t0, was, t, count, hashed, cur, log) && t.kids[cur] == []
    ensures log + [cur] <= Teardown(t0) && cur in t0.kids && count[cur] == was[cur] - |t0.kids[cur]|
    ensures cur !in hashed && forall x :: x in log ==> x in t0.kids && was[x] == |t0.kids[x]|
    ensures cur == t.root ==> log + [cur] == Teardown(t0) && t.kids.Keys == {cur}
  {
    hide Tree.Valid, Prune;
    RootFacts(t);
    if cur != t.root {
      TeardownTakesFirstLeaf(t, cur);
    } else {
      LoneRoot(t);
    }
  }

  lemma LoneRoot(t: Tree<Ref>)
    requires t.Valid() && t.kids[t.root] == []
    ensures Teardown(t) == [t.root] && t.kids.Keys == {t.root}
  {
    PostEnd(t, t.root);
    TeardownComplete(t);
    assert forall x :: x in t.kids.Keys <==> x in multiset(Teardown(t));
  }

  /** The teardown meets every entry, so it stops exactly when one is unbalanced. */
  lemma Verdict(t: Tree<Ref>, was: map<Ref, int>, bug: bool, log: seq<Ref>)
    requires t.Valid() && was.Keys == t.kids.Keys
    requires forall x :: x in log ==> x in t.kids && was[x] == |t.kids[x]|
    requires if !bug then log == Teardown(t)
             else |log| < |Teardown(t)| && var x := Teardown(t)[|log|]; x in t.kids && was[x] != |t.kids[x]|
    ensures bug <==> exists x :: x in t.kids && was[x] != |t.kids[x]|
    ensures |Teardown(t)| == |t.kids|
  {
    TeardownComplete(t);
    assert forall x :: x in t.kids.Keys <==> x in multiset(Teardown(t));
  }

  lemma ShrinkShape(t0: Tree<Ref>, was: map<Ref, int>, t: Tree<Ref>, count: map<Ref, int>, hashed: set<Ref>,
                    cur: Ref, log: seq<Ref>)
    requires Shrinking(t0, was, t, count, hashed, cur, log)
    ensures t.Valid() && cur in t.kids
  {
  }
}
