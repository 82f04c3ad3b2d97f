/**
 Rooted trees as finite maps: every node knows its list of children, every node but the
 root knows its parent.  The dentry heap, the two name-space searches and the mirroring
 protocol all talk about trees through this module.

 `depth` and `bound` only serve termination: going up lowers `depth`, going down lowers
 `bound - depth`.
 */
module Trees {

  /** The address of a dentry. */
  type Ref = nat

  datatype Tree<!N(==)> = Tree(root: N, kids: map<N, seq<N>>, parent: map<N, N>, depth: map<N, nat>, bound: nat) {

    ghost predicate Valid() {
      && root in kids
      && depth.Keys == kids.Keys
      && parent.Keys == kids.Keys - {root}
      && depth[root] == 0
      && (forall p, i :: p in kids && 0 <= i < |kids[p]| ==>
            kids[p][i] in parent && parent[kids[p][i]] == p && depth[kids[p][i]] == depth[p] + 1)
      && (forall p, i, j :: p in kids && 0 <= i < j < |kids[p]| ==> kids[p][i] != kids[p][j])
      && (forall x {:trigger parent[x]} :: x in parent ==> parent[x] in kids && x in kids[parent[x]])
      && (forall x :: x in kids ==> depth[x] <= bound)
    }

    /** The position of `x` in its parent's list of children. */
    ghost function Idx(x: N): (i: nat)
      requires Valid() && x in parent
      ensures i < |kids[parent[x]]| && kids[parent[x]][i] == x
    {
      var i :| 0 <= i < |kids[parent[x]]| && kids[parent[x]][i] == x;
      i
    }
  }

  lemma IdxUnique<N>(t: Tree<N>, p: N, i: nat)
    requires t.Valid() && p in t.kids && i < |t.kids[p]|
    ensures t.Idx(t.kids[p][i]) == i
  {
  }

  // ---------------------------------------------------------------- growing and shrinking

  /** A new childless node at the head of `p`'s list. */
  function Grow<N>(t: Tree<N>, p: N, x: N): Tree<N>
    requires p in t.kids && p in t.depth
  {
    Tree(t.root, t.kids[p := [x] + t.kids[p]][x := []], t.parent[x := p],
         t.depth[x := t.depth[p] + 1], t.bound + 1)
  }

  lemma GrowValid<N>(t: Tree<N>, p: N, x: N)
    requires t.Valid() && p in t.kids && x !in t.kids
    ensures Grow(t, p, x).Valid()
  {
    hide Tree.Valid;
    RootFacts(t);
    var u := Grow(t, p, x);
    forall q, i | q in u.kids && 0 <= i < |u.kids[q]|
      ensures u.kids[q][i] in u.parent && u.parent[u.kids[q][i]] == q && u.depth[u.kids[q][i]] == u.depth[q] + 1
    {
      if q != p { ChildFacts(t, q, i); } else if i > 0 { ChildFacts(t, p, i - 1); }
    }
    forall q, i, j | q in u.kids && 0 <= i < j < |u.kids[q]| ensures u.kids[q][i] != u.kids[q][j] {
      if q != p { Distinct(t, q, i, j); } else if i > 0 { Distinct(t, p, i - 1, j - 1); } else { ChildFacts(t, p, j - 1); }
    }
    forall y | y in u.parent ensures u.parent[y] in u.kids && y in u.kids[u.parent[y]] {
      if y == x { assert u.kids[p][0] == x; } else { HungBelow(t, y); }
    }
    ValidIntro(u);
  }

  lemma HungBelow<N>(t: Tree<N>, y: N)
    requires t.Valid() && y in t.parent
    ensures t.parent[y] in t.kids && y in t.kids[t.parent[y]]
  {
  }

  lemma Distinct<N>(t: Tree<N>, p: N, i: nat, j: nat)
    requires t.Valid() && p in t.kids && i < j < |t.kids[p]|
    ensures t.kids[p][i] != t.kids[p][j]
  {
  }

  lemma ValidIntro<N>(t: Tree<N>)
    requires t.root in t.kids && t.depth.Keys == t.kids.Keys && t.parent.Keys == t.kids.Keys - {t.root} && t.depth[t.root] == 0
    requires forall p, i :: p in t.kids && 0 <= i < |t.kids[p]| ==>
      t.kids[p][i] in t.parent && t.parent[t.kids[p][i]] == p && t.depth[t.kids[p][i]] == t.depth[p] + 1
    requires forall p, i, j :: p in t.kids && 0 <= i < j < |t.kids[p]| ==> t.kids[p][i] != t.kids[p][j]
    requires forall x {:trigger t.parent[x]} :: x in t.parent ==> t.parent[x] in t.kids && x in t.kids[t.parent[x]]
    requires forall x :: x in t.kids ==> t.depth[x] <= t.bound
    ensures t.Valid()
  {
  }

  /** `s` without its element at position `i`. */
  function Without<N>(s: seq<N>, i: nat): seq<N>
    requires i < |s|
  {
    s[..i] + s[i + 1..]
  }

  /** The childless node `x`, the `i`-th child of its parent, leaves the tree. */
  function Prune<N>(t: Tree<N>, x: N, i: nat): Tree<N>
    requires x in t.parent && t.parent[x] in t.kids && i < |t.kids[t.parent[x]]|
  {
    var p := t.parent[x];
    Tree(t.root, t.kids[p := Without(t.kids[p], i)] - {x}, t.parent - {x}, t.depth - {x}, t.bound)
  }

  lemma PruneValid<N>(t: Tree<N>, x: N, i: nat)
    requires t.Valid() && x in t.parent && t.kids[x] == []
    requires i < |t.kids[t.parent[x]]| && t.kids[t.parent[x]][i] == x
    ensures Prune(t, x, i).Valid()
  {
    hide Tree.Valid;
    RootFacts(t);
    HungBelow(t, x);
    var p, u := t.parent[x], Prune(t, x, i);
    assert u.kids[p] == Without(t.kids[p], i) by { ChildFacts(t, p, i); }
    forall q, j | q in u.kids && 0 <= j < |u.kids[q]|
      ensures u.kids[q][j] in u.parent && u.parent[u.kids[q][j]] == q && u.depth[u.kids[q][j]] == u.depth[q] + 1
    {
      ChildFacts(t, q, if q == p && j >= i then j + 1 else j);
      if q == p { if j < i { Distinct(t, p, j, i); } else { Distinct(t, p, i, j + 1); } }
    }
    forall q, j, k | q in u.kids && 0 <= j < k < |u.kids[q]| ensures u.kids[q][j] != u.kids[q][k] {
      Distinct(t, q, if q == p && j >= i then j + 1 else j, if q == p && k >= i then k + 1 else k);
    }
    forall y | y in u.parent ensures u.parent[y] in u.kids && y in u.kids[u.parent[y]] {
      HungBelow(t, y);
      if u.parent[y] == p { StillIn(t.kids[p], i, y); }
    }
    ValidIntro(u);
  }

  lemma StillIn<N>(s: seq<N>, i: nat, y: N)
    requires i < |s| && y in s && s[i] != y
    ensures y in Without(s, i)
  {
    var j :| 0 <= j < |s| && s[j] == y;
    assert Without(s, i)[if j < i then j else j - 1] == y;
  }

  // ---------------------------------------------------------------- what a walk touches

  /** How often a walk over the children of `p` from position `i` on, descending through
      nodes of `live`, touches `x`. */
  ghost function Hits<N>(t: Tree<N>, live: set<N>, p: N, i: nat, x: N): (n: nat)
    requires t.Valid() && p in t.kids && i <= |t.kids[p]|
    decreases t.bound - t.depth[p], |t.kids[p]| - i
  {
    if i == |t.kids[p]| then 0
    else
      var c := t.kids[p][i];
      (if c in live then Hits(t, live, c, 0, x) + (if x == c then 1 else 0) else 0) + Hits(t, live, p, i + 1, x)
  }

  /** `x` hangs below child `i` or a later child of `p`, and `x` and all nodes between are live. */
  ghost predicate Below<N>(t: Tree<N>, live: set<N>, x: N, p: N, i: nat)
    requires t.Valid() && x in t.kids
    decreases t.depth[x]
  {
    && x != t.root
    && x in live
    && if t.parent[x] == p then i <= t.Idx(x) else Below(t, live, t.parent[x], p, i)
  }

  /** `x` and all its ancestors short of the root are live. */
  ghost predicate Reach<N>(t: Tree<N>, live: set<N>, x: N)
    requires t.Valid() && x in t.kids
    decreases t.depth[x]
  {
    x == t.root || (x in live && Reach(t, live, t.parent[x]))
  }

  lemma {:induction false} BelowIsDeeper<N>(t: Tree<N>, live: set<N>, x: N, p: N, i: nat)
    requires t.Valid() && x in t.kids && p in t.kids && Below(t, live, x, p, i)
    ensures t.depth[p] < t.depth[x]
    decreases t.depth[x]
  {
    if t.parent[x] != p { BelowIsDeeper(t, live, t.parent[x], p, i); }
  }

  lemma {:induction false} NothingBelowTheEnd<N>(t: Tree<N>, live: set<N>, x: N, p: N)
    requires t.Valid() && x in t.kids && p in t.kids
    ensures !Below(t, live, x, p, |t.kids[p]|)
    decreases t.depth[x]
  {
    if x != t.root && t.parent[x] != p { NothingBelowTheEnd(t, live, t.parent[x], p); }
  }

  /** What hangs below child `i` or later hangs below child `i` or below a later one, not both. */
  lemma {:induction false} BelowSplits<N>(t: Tree<N>, live: set<N>, x: N, p: N, i: nat)
    requires t.Valid() && x in t.kids && p in t.kids && i < |t.kids[p]|
    ensures var c := t.kids[p][i];
            && (Below(t, live, x, p, i) <==>
                (c in live && (x == c || Below(t, live, x, c, 0))) || Below(t, live, x, p, i + 1))
            && !((x == c || Below(t, live, x, c, 0)) && Below(t, live, x, p, i + 1))
    decreases t.depth[x]
  {
    var c := t.kids[p][i];
    if x == t.root || x !in live { return; }
    var q := t.parent[x];
    if q == p {
      IdxUnique(t, p, i);
      if Below(t, live, p, c, 0) { BelowIsDeeper(t, live, p, c, 0); }
    } else if q == c {
      IdxUnique(t, p, i);
    } else {
      BelowSplits(t, live, q, p, i);
    }
  }

  /** A walk below `p` touches a node at most once, and exactly the live-reachable ones. */
  lemma {:induction false} HitsCount<N>(t: Tree<N>, live: set<N>, p: N, i: nat, x: N)
    requires t.Valid() && p in t.kids && i <= |t.kids[p]| && x in t.kids
    ensures Hits(t, live, p, i, x) == if Below(t, live, x, p, i) then 1 else 0
    decreases t.bound - t.depth[p], |t.kids[p]| - i
  {
    if i == |t.kids[p]| {
      NothingBelowTheEnd(t, live, x, p);
    } else {
      var c := t.kids[p][i];
      HitsCount(t, live, c, 0, x);
      HitsCount(t, live, p, i + 1, x);
      BelowSplits(t, live, x, p, i);
      if Below(t, live, c, c, 0) { BelowIsDeeper(t, live, c, c, 0); }
    }
  }

  lemma {:induction false} BelowRootIsReach<N>(t: Tree<N>, live: set<N>, x: N)
    requires t.Valid() && x in t.kids
    ensures Below(t, live, x, t.root, 0) <==> x != t.root && Reach(t, live, x)
    decreases t.depth[x]
  {
    if x != t.root { BelowRootIsReach(t, live, t.parent[x]); }
  }

  lemma HitsFromRoot<N>(t: Tree<N>, live: set<N>, x: N)
    requires t.Valid() && x in t.kids
    ensures Hits(t, live, t.root, 0, x) == if x != t.root && Reach(t, live, x) then 1 else 0
  {
    HitsCount(t, live, t.root, 0, x);
    BelowRootIsReach(t, live, x);
  }

  lemma {:induction false} AllReach<N>(t: Tree<N>, x: N)
    requires t.Valid() && x in t.kids
    ensures Reach(t, t.kids.Keys, x)
    decreases t.depth[x]
  {
    if x != t.root { AllReach(t, t.parent[x]); }
  }

  // ---------------------------------------------------------------- leaf-first order

  /** The nodes below `p` from child `i` on, each after everything below it. */
  ghost function Post<N>(t: Tree<N>, p: N, i: nat): (s: seq<N>)
    requires t.Valid() && p in t.kids && i <= |t.kids[p]|
    decreases t.bound - t.depth[p], |t.kids[p]| - i
  {
    if i == |t.kids[p]| then []
    else Post(t, t.kids[p][i], 0) + [t.kids[p][i]] + Post(t, p, i + 1)
  }

  /** Every node of `s` comes after all its children. */
  ghost predicate ChildrenFirst<N>(t: Tree<N>, s: seq<N>) {
    forall k :: 0 <= k < |s| ==> s[k] in t.kids && forall c :: c in t.kids[s[k]] ==> c in s[..k]
  }

  lemma ChildrenFirstAppend<N>(t: Tree<N>, a: seq<N>, b: seq<N>)
    requires ChildrenFirst(t, a) && ChildrenFirst(t, b)
    ensures ChildrenFirst(t, a + b)
  {
    var s := a + b;
    forall k | 0 <= k < |s|
      ensures s[k] in t.kids && forall c :: c in t.kids[s[k]] ==> c in s[..k]
    {
      if k < |a| { assert s[..k] == a[..k]; }
      else { assert s[..k] == a + b[..k - |a|]; }
    }
  }

  lemma {:induction false} PostChildrenFirst<N>(t: Tree<N>, p: N, i: nat)
    requires t.Valid() && p in t.kids && i <= |t.kids[p]|
    ensures ChildrenFirst(t, Post(t, p, i))
    ensures forall j :: i <= j < |t.kids[p]| ==> t.kids[p][j] in Post(t, p, i)
    decreases t.bound - t.depth[p], |t.kids[p]| - i
  {
    if i < |t.kids[p]| {
      var c := t.kids[p][i];
      PostChildrenFirst(t, c, 0);
      PostChildrenFirst(t, p, i + 1);
      var a := Post(t, c, 0) + [c];
      ChildrenFirstLast(t, Post(t, c, 0), c);
      ChildrenFirstAppend(t, a, Post(t, p, i + 1));
    }
  }

  lemma {:induction false} PostHits<N>(t: Tree<N>, p: N, i: nat, x: N)
    requires t.Valid() && p in t.kids && i <= |t.kids[p]|
    ensures multiset(Post(t, p, i))[x] == Hits(t, t.kids.Keys, p, i, x)
    decreases t.bound - t.depth[p], |t.kids[p]| - i
  {
    hide Tree.Valid, Post, Hits;
    if i < |t.kids[p]| {
      var c := t.kids[p][i];
      ChildFacts(t, p, i);
      PostHits(t, c, 0, x);
      PostHits(t, p, i + 1, x);
      PostStep(t, p, i);
      HitsStep(t, t.kids.Keys, p, i, x);
      AppendCount(Post(t, c, 0), c, Post(t, p, i + 1), x);
    } else {
      PostEnd(t, p);
      HitsStep(t, t.kids.Keys, p, i, x);
    }
  }

  /** The count unfolded once. */
  lemma HitsStep<N>(t: Tree<N>, live: set<N>, p: N, i: nat, x: N)
    requires t.Valid() && p in t.kids && i <= |t.kids[p]|
    ensures i == |t.kids[p]| ==> Hits(t, live, p, i, x) == 0
    ensures i < |t.kids[p]| ==>
              && t.kids[p][i] in t.kids
              && Hits(t, live, p, i, x)
                 == (if t.kids[p][i] in live then Hits(t, live, t.kids[p][i], 0, x) + (if x == t.kids[p][i] then 1 else 0) else 0)
                    + Hits(t, live, p, i + 1, x)
  {
  }

  lemma AppendCount<N>(a: seq<N>, c: N, b: seq<N>, x: N)
    ensures multiset(a + [c] + b)[x] == multiset(a)[x] + (if x == c then 1 else 0) + multiset(b)[x]
  {
  }

  /** The whole tree, leaf first, the root last. */
  ghost function Teardown<N>(t: Tree<N>): (s: seq<N>)
    requires t.Valid()
  {
    Post(t, t.root, 0) + [t.root]
  }

  lemma TeardownCount<N>(t: Tree<N>, x: N)
    requires t.Valid()
    ensures multiset(Teardown(t))[x] == if x in t.kids then 1 else 0
  {
    PostHits(t, t.root, 0, x);
    AppendCount(Post(t, t.root, 0), t.root, [], x);
    assert Teardown(t) == Post(t, t.root, 0) + [t.root] + [];
    if x in t.kids {
      HitsFromRoot(t, t.kids.Keys, x);
      AllReach(t, x);
    } else {
      NeverHitsStrangers(t, t.kids.Keys, t.root, 0, x);
    }
  }

  lemma {:induction false} NeverHitsStrangers<N>(t: Tree<N>, live: set<N>, p: N, i: nat, x: N)
    requires t.Valid() && p in t.kids && i <= |t.kids[p]| && x !in t.kids
    ensures Hits(t, live, p, i, x) == 0
    decreases t.bound - t.depth[p], |t.kids[p]| - i
  {
    if i < |t.kids[p]| {
      NeverHitsStrangers(t, live, t.kids[p][i], 0, x);
      NeverHitsStrangers(t, live, p, i + 1, x);
    }
  }

  /** The teardown lists every node exactly once, each after all its children. */
  lemma TeardownComplete<N>(t: Tree<N>)
    requires t.Valid()
    ensures multiset(Teardown(t)) == multiset(t.kids.Keys)
    ensures ChildrenFirst(t, Teardown(t))
    ensures |Teardown(t)| == |t.kids|
  {
    var a, s := Post(t, t.root, 0), Teardown(t);
    forall x ensures multiset(s)[x] == multiset(t.kids.Keys)[x] { TeardownCount(t, x); }
    assert |multiset(s)| == |s| && |multiset(t.kids.Keys)| == |t.kids.Keys|;
    PostChildrenFirst(t, t.root, 0);
    ChildrenFirstLast(t, a, t.root);
  }

  lemma ChildrenFirstLast<N>(t: Tree<N>, a: seq<N>, c: N)
    requires ChildrenFirst(t, a) && c in t.kids && forall d :: d in t.kids[c] ==> d in a
    ensures ChildrenFirst(t, a + [c])
  {
    var s := a + [c];
    assert s[..|a|] == a;
    assert forall k :: 0 <= k < |a| ==> s[..k] == a[..k];
  }

  // ---------------------------------------------------------------- taking the first leaf

  ghost function Ancestors<N>(t: Tree<N>, d: N): (s: set<N>)
    requires t.Valid() && d in t.kids
    decreases t.depth[d]
  {
    {d} + if d == t.root then {} else Ancestors(t, t.parent[d])
  }

  lemma {:induction false} AncestorsAreAbove<N>(t: Tree<N>, d: N, x: N)
    requires t.Valid() && d in t.kids && x in Ancestors(t, d)
    ensures x in t.kids && t.depth[x] <= t.depth[d] && (x != t.root ==> t.parent[x] in Ancestors(t, d))
    decreases t.depth[d]
  {
    if d != t.root {
      assert t.parent[d] in Ancestors(t, t.parent[d]);
      if x != d { AncestorsAreAbove(t, t.parent[d], x); }
    }
  }

  lemma {:induction false} OneAncestorPerDepth<N>(t: Tree<N>, d: N, x: N, y: N)
    requires t.Valid() && d in t.kids && x in Ancestors(t, d) && y in Ancestors(t, d)
    requires x in t.kids && y in t.kids && t.depth[x] == t.depth[y]
    ensures x == y
    decreases t.depth[d]
  {
    if x == d && y != d { AncestorsAreAbove(t, t.parent[d], y); }
    else if y == d && x != d { AncestorsAreAbove(t, t.parent[d], x); }
    else if x != d { OneAncestorPerDepth(t, t.parent[d], x, y); }
  }

  /** `d` and all its ancestors are first children. */
  ghost predicate Leftmost<N>(t: Tree<N>, d: N)
    requires t.Valid() && d in t.kids
    decreases t.depth[d]
  {
    d == t.root || (t.Idx(d) == 0 && Leftmost(t, t.parent[d]))
  }

  /** `u` is `t` without its leaf `d`, a first child. */
  ghost predicate FirstLeafGone<N>(t: Tree<N>, u: Tree<N>, d: N) {
    && t.Valid() && u.Valid() && d in t.parent && t.kids[d] == [] && t.Idx(d) == 0
    && u.root == t.root && u.kids.Keys == t.kids.Keys - {d} && u.parent == t.parent - {d}
    && forall p :: p in u.kids ==> u.kids[p] == if p == t.parent[d] then t.kids[p][1..] else t.kids[p]
  }

  lemma PruneFirstLeaf<N>(t: Tree<N>, d: N)
    requires t.Valid() && d in t.parent && t.kids[d] == [] && t.Idx(d) == 0
    ensures FirstLeafGone(t, Prune(t, d, 0), d)
  {
    PruneValid(t, d, 0);
    assert Without(t.kids[t.parent[d]], 0) == t.kids[t.parent[d]][1..];
  }

  /** No child of `p` from `i` on leads to `d`. */
  ghost predicate Aside<N>(t: Tree<N>, d: N, p: N, i: nat)
    requires t.Valid() && d in t.kids && p in t.kids
  {
    forall j :: i <= j < |t.kids[p]| ==> t.kids[p][j] !in Ancestors(t, d)
  }

  lemma AsideBelow<N>(t: Tree<N>, d: N, p: N, i: nat)
    requires t.Valid() && d in t.parent && p in t.kids && i < |t.kids[p]| && Aside(t, d, p, i)
    ensures t.kids[p][i] in t.kids && t.kids[p][i] != d && t.kids[p][i] != t.parent[d]
    ensures Aside(t, d, t.kids[p][i], 0) && Aside(t, d, p, i + 1)
  {
    var c := t.kids[p][i];
    AncestorsAreAbove(t, d, d);
    forall j | 0 <= j < |t.kids[c]| ensures t.kids[c][j] !in Ancestors(t, d) {
      if t.kids[c][j] in Ancestors(t, d) { AncestorsAreAbove(t, d, t.kids[c][j]); }
    }
  }

  lemma ChildFacts<N>(t: Tree<N>, p: N, i: nat)
    requires t.Valid() && p in t.kids && i < |t.kids[p]|
    ensures t.kids[p][i] in t.kids && t.kids[p][i] in t.parent && t.kids[p][i] != t.root
    ensures t.parent[t.kids[p][i]] == p && t.Idx(t.kids[p][i]) == i
    ensures t.depth.Keys == t.kids.Keys && t.depth[t.kids[p][i]] == t.depth[p] + 1 <= t.bound
  {
  }

  /** Taking the leaf away does not disturb the order where nothing leads to it. */
  lemma {:induction false} PostElsewhere<N>(t: Tree<N>, u: Tree<N>, d: N, p: N, i: nat)
    requires FirstLeafGone(t, u, d) && p in u.kids && i <= |t.kids[p]| && Aside(t, d, p, i)
    requires p == t.parent[d] ==> 1 <= i
    ensures Post(u, p, if p == t.parent[d] then i - 1 else i) == Post(t, p, i)
    decreases if p in t.depth then t.bound - t.depth[p] else 0, |t.kids[p]| - i
  {
    hide Tree.Valid, Tree.Idx, Aside, Post;
    var k := if p == t.parent[d] then i - 1 else i;
    if i < |t.kids[p]| {
      AsideBelow(t, d, p, i);
      ChildFacts(t, p, i);
      assert u.kids[p][k] == t.kids[p][i];
      PostElsewhere(t, u, d, t.kids[p][i], 0);
      PostElsewhere(t, u, d, p, i + 1);
      PostStep(t, p, i);
      PostStep(u, p, k);
    } else {
      PostEnd(t, p);
      PostEnd(u, p);
    }
  }

  lemma PostStep<N>(t: Tree<N>, p: N, i: nat)
    requires t.Valid() && p in t.kids && i < |t.kids[p]|
    ensures t.kids[p][i] in t.kids
    ensures Post(t, p, i) == Post(t, t.kids[p][i], 0) + [t.kids[p][i]] + Post(t, p, i + 1)
  {
  }

  lemma PostEnd<N>(t: Tree<N>, p: N)
    requires t.Valid() && p in t.kids
    ensures Post(t, p, |t.kids[p]|) == []
  {
  }

  lemma AsideOfSpine<N>(t: Tree<N>, d: N, x: N)
    requires t.Valid() && d in t.kids && x in Ancestors(t, d) && x in t.parent && t.Idx(x) == 0
    ensures Aside(t, d, t.parent[x], 1)
  {
    var p := t.parent[x];
    forall j | 1 <= j < |t.kids[p]| ensures t.kids[p][j] !in Ancestors(t, d) {
      if t.kids[p][j] in Ancestors(t, d) { OneAncestorPerDepth(t, d, x, t.kids[p][j]); }
    }
  }

  /** The leaf comes first below its parent, and below `parent[x]` if it does below `x`. */
  lemma FirstBelowParent<N>(t: Tree<N>, u: Tree<N>, d: N)
    requires FirstLeafGone(t, u, d)
    ensures t.parent[d] in u.kids && Post(t, t.parent[d], 0) == [d] + Post(u, t.parent[d], 0)
  {
    hide Tree.Valid, Tree.Idx, Post, Ancestors, Aside;
    var p := t.parent[d];
    ParentFacts(t, d);
    AsideOfSpine(t, d, d);
    PostElsewhere(t, u, d, p, 1);
    PostStep(t, p, 0);
    PostEnd(t, d);
    assert [] + [d] + Post(t, p, 1) == [d] + Post(t, p, 1);
  }

  lemma FirstBelowNext<N>(t: Tree<N>, u: Tree<N>, d: N, x: N)
    requires FirstLeafGone(t, u, d) && x in Ancestors(t, d) && x in t.parent && x != d && t.Idx(x) == 0
    requires x in u.kids && Post(t, x, 0) == [d] + Post(u, x, 0)
    ensures t.parent[x] in u.kids && Post(t, t.parent[x], 0) == [d] + Post(u, t.parent[x], 0)
  {
    hide Tree.Valid, Tree.Idx, Post, Ancestors;
    var p := t.parent[x];
    ParentFacts(t, d);
    Uppers(t, d, x);
    AsideOfSpine(t, d, x);
    PostElsewhere(t, u, d, p, 1);
    PostStep(t, p, 0);
    PostStep(u, p, 0);
    assert [d] + Post(u, x, 0) + [x] + Post(u, p, 1) == [d] + (Post(u, x, 0) + [x] + Post(u, p, 1));
  }

  lemma Uppers<N>(t: Tree<N>, d: N, x: N)
    requires t.Valid() && d in t.parent && x in Ancestors(t, d) && x in t.parent && x != d && t.Idx(x) == 0
    ensures t.parent[x] in t.kids && t.parent[x] != d && t.parent[x] != t.parent[d]
    ensures t.kids[t.parent[x]] != [] && t.kids[t.parent[x]][0] == x
  {
    AncestorsAreAbove(t, d, x);
    if t.parent[x] == t.parent[d] { AncestorsAreAbove(t, t.parent[d], x); }
  }

  lemma ParentFacts<N>(t: Tree<N>, d: N)
    requires t.Valid() && d in t.parent
    ensures d in t.kids && d != t.root && t.parent[d] in t.kids && t.parent[d] != d
    ensures t.parent[d] in Ancestors(t, d) && d in Ancestors(t, d)
    ensures t.Idx(d) < |t.kids[t.parent[d]]| && t.kids[t.parent[d]][t.Idx(d)] == d
    ensures d in t.depth && t.parent[d] in t.depth && t.depth[d] == t.depth[t.parent[d]] + 1
    ensures t.parent[d] != t.root ==> t.parent[d] in t.parent
  {
    AncestorsAreAbove(t, d, d);
  }

  lemma RootFacts<N>(t: Tree<N>)
    requires t.Valid()
    ensures t.root in t.kids && t.parent.Keys == t.kids.Keys - {t.root}
    ensures t.depth.Keys == t.kids.Keys && t.depth[t.root] == 0 && forall x :: x in t.kids ==> t.depth[x] <= t.bound
  {
  }

  lemma {:induction false} FirstBelowRoot<N>(t: Tree<N>, u: Tree<N>, d: N, x: N)
    requires FirstLeafGone(t, u, d) && x in Ancestors(t, d) && x != d && x in t.kids && Leftmost(t, x)
    requires x in u.kids && Post(t, x, 0) == [d] + Post(u, x, 0)
    ensures Post(t, t.root, 0) == [d] + Post(u, t.root, 0)
    decreases t.depth[x]
  {
    hide Post;
    if x != t.root {
      AncestorsAreAbove(t, d, x);
      FirstBelowNext(t, u, d, x);
      Uppers(t, d, x);
      FirstBelowRoot(t, u, d, t.parent[x]);
    }
  }

  /** The leftmost leaf is the first entry of the teardown, and the rest of it is the
      teardown of what is left. */
  lemma TeardownTakesFirstLeaf<N>(t: Tree<N>, d: N)
    requires t.Valid() && d in t.parent && t.kids[d] == [] && Leftmost(t, d)
    ensures FirstLeafGone(t, Prune(t, d, 0), d)
    ensures Teardown(t) == [d] + Teardown(Prune(t, d, 0))
  {
    hide Tree.Valid, Post, Prune, Ancestors;
    ParentFacts(t, d);
    var u := Prune(t, d, 0);
    PruneFirstLeaf(t, d);
    FirstBelowParent(t, u, d);
    FirstBelowRoot(t, u, d, t.parent[d]);
    assert t.root in u.kids by { RootFacts(u); }
    assert [d] + Post(u, t.root, 0) + [t.root] == [d] + (Post(u, t.root, 0) + [t.root]);
  }

  /** The way from the root to the leaf's parent stays as it is. */
  lemma {:induction false} SpineKept<N>(t: Tree<N>, u: Tree<N>, d: N, x: N)
    requires FirstLeafGone(t, u, d) && x in t.kids && x in u.kids && Leftmost(t, x)
    requires x in t.depth && d in t.depth && t.depth[x] < t.depth[d]
    ensures Leftmost(u, x) && Ancestors(u, x) == Ancestors(t, x)
    decreases t.depth[x]
  {
    hide Tree.Valid;
    RootFacts(t);
    if x != t.root {
      ParentFacts(t, d);
      ParentFacts(t, x);
      SpineKept(t, u, d, t.parent[x]);
      IdxUnique(u, t.parent[x], 0);
    }
  }

  /** The position of `d` in its parent's list. */
  method Position<N(==)>(t: Tree<N>, d: N) returns (i: nat)
    requires t.Valid() && d in t.parent
    ensures t.parent[d] in t.kids && i == t.Idx(d) && i < |t.kids[t.parent[d]]| && t.kids[t.parent[d]][i] == d
  {
    var s := t.kids[t.parent[d]];
    i := 0;
    while s[i] != d
      invariant i <= t.Idx(d)
      decreases |s| - i
    {
      i := i + 1;
    }
    IdxUnique(t, t.parent[d], i);
  }
}
