/**
 Two trees of the same shape: one is the other with its nodes renamed, list order included.
 Growing and pruning both keep the shape, and a search in one finds the renamed node that the
 search in the other finds.
 */
module Isomorphism {
  import opened Trees
  import opened Searches

  /** `s` renamed, element by element. */
  function Ren(rho: map<int, int>, s: seq<int>): (r: seq<int>)
    requires forall i :: 0 <= i < |s| ==> s[i] in rho
    ensures |r| == |s| && forall i :: 0 <= i < |s| ==> r[i] == rho[s[i]]
  {
    seq(|s|, i requires 0 <= i < |s| => rho[s[i]])
  }

  ghost predicate Injective(rho: map<int, int>) {
    forall x, y :: x in rho && y in rho && rho[x] == rho[y] ==> x == y
  }

  ghost predicate Shape(h: Tree<int>, u: Tree<int>, rho: map<int, int>) {
    && h.Valid() && u.Valid() && Injective(rho)
    && rho.Keys == h.kids.Keys && rho[h.root] == u.root
    && forall x :: x in rho ==> SameKids(h, u, rho, x)
  }

  /** The children of `x` and of its image are images of each other in order. */
  ghost predicate SameKids(h: Tree<int>, u: Tree<int>, rho: map<int, int>, x: int)
    requires x in rho
  {
    && x in h.kids && rho[x] in u.kids && |u.kids[rho[x]]| == |h.kids[x]|
    && forall i :: 0 <= i < |h.kids[x]| ==> h.kids[x][i] in rho && u.kids[rho[x]][i] == rho[h.kids[x][i]]
  }

  lemma ShapeFacts(h: Tree<int>, u: Tree<int>, rho: map<int, int>)
    requires Shape(h, u, rho)
    ensures h.Valid() && u.Valid() && Injective(rho) && rho.Keys == h.kids.Keys
    ensures h.root in rho && rho[h.root] == u.root
    ensures forall x :: x in rho ==> SameKids(h, u, rho, x)
  {
  }

  lemma ImageOfParent(h: Tree<int>, u: Tree<int>, rho: map<int, int>, x: int)
    requires Shape(h, u, rho) && x in h.parent
    ensures x in rho && h.parent[x] in rho && rho[x] in u.parent && u.parent[rho[x]] == rho[h.parent[x]]
    ensures u.Idx(rho[x]) == h.Idx(x)
  {
    hide Tree.Valid;
    ShapeFacts(h, u, rho);
    ParentFacts(h, x);
    var p, i := h.parent[x], h.Idx(x);
    assert SameKids(h, u, rho, p);
    ChildFacts(u, rho[p], i);
  }

  /** Every node of the second tree is the image of a node of the first. */
  lemma {:induction false} Onto(h: Tree<int>, u: Tree<int>, rho: map<int, int>, y: int) returns (x: int)
    requires Shape(h, u, rho) && y in u.kids
    ensures x in rho && rho[x] == y
    decreases if y in u.depth then u.depth[y] else 0
  {
    hide Tree.Valid;
    ShapeFacts(h, u, rho);
    RootFacts(u);
    if y == u.root {
      x := h.root;
    } else {
      ParentFacts(u, y);
      var p := Onto(h, u, rho, u.parent[y]);
      assert SameKids(h, u, rho, p);
      x := h.kids[p][u.Idx(y)];
    }
  }

  /** A new leaf on both sides. */
  lemma GrowShape(h: Tree<int>, u: Tree<int>, rho: map<int, int>, p: int, x: int, l: int)
    requires Shape(h, u, rho) && p in h.kids && x !in h.kids && l !in u.kids
    ensures p in rho && p in h.depth && rho[p] in u.kids && rho[p] in u.depth
    ensures Shape(Grow(h, p, x), Grow(u, rho[p], l), rho[x := l])
  {
    hide Tree.Valid;
    ShapeFacts(h, u, rho);
    DepthFacts(h, p);
    DepthFacts(u, rho[p]);
    GrowValid(h, p, x);
    GrowValid(u, rho[p], l);
    forall y | y in rho ensures rho[y] != l { assert SameKids(h, u, rho, y); }
    var h', u', rho' := Grow(h, p, x), Grow(u, rho[p], l), rho[x := l];
    forall y | y in rho' ensures SameKids(h', u', rho', y) { GrowKids(h, u, rho, p, x, l, y); }
  }

  lemma GrowKids(h: Tree<int>, u: Tree<int>, rho: map<int, int>, p: int, x: int, l: int, y: int)
    requires Injective(rho) && p in rho && x !in rho && y in rho[x := l]
    requires p in h.kids && p in h.depth && rho[p] in u.kids && rho[p] in u.depth && x !in h.kids && l !in u.kids
    requires SameKids(h, u, rho, p) && (y in rho ==> SameKids(h, u, rho, y))
    ensures SameKids(Grow(h, p, x), Grow(u, rho[p], l), rho[x := l], y)
  {
  }

  lemma DepthFacts(t: Tree<int>, p: int)
    requires t.Valid() && p in t.kids
    ensures p in t.depth
  {
  }

  /** The same leaf goes on both sides. */
  lemma PruneShape(h: Tree<int>, u: Tree<int>, rho: map<int, int>, x: int)
    requires Shape(h, u, rho) && x in h.parent && x in h.kids && h.kids[x] == []
    ensures x in rho && rho[x] in u.parent && rho[x] in u.kids && u.kids[rho[x]] == []
    ensures h.parent[x] in h.kids && u.parent[rho[x]] in u.kids
    ensures Shape(Prune(h, x, h.Idx(x)), Prune(u, rho[x], u.Idx(rho[x])), rho - {x})
  {
    hide Tree.Valid;
    ShapeFacts(h, u, rho);
    ParentFacts(h, x);
    RootFacts(u);
    ImageOfParent(h, u, rho, x);
    assert SameKids(h, u, rho, x);
    var p, i, l := h.parent[x], h.Idx(x), rho[x];
    ParentFacts(u, l);
    PruneValid(h, x, i);
    PruneValid(u, l, i);
    PruneKids(h, u, rho, x);
  }

  lemma PruneKids(h: Tree<int>, u: Tree<int>, rho: map<int, int>, x: int)
    requires Shape(h, u, rho) && x in h.parent && x in rho && rho[x] in u.parent && u.parent[rho[x]] in u.kids
    requires h.parent[x] in rho && u.parent[rho[x]] == rho[h.parent[x]] && u.Idx(rho[x]) == h.Idx(x)
    requires h.parent[x] in h.kids && h.parent[x] != x
    ensures forall y :: y in rho && y != x ==>
              SameKids(Prune(h, x, h.Idx(x)), Prune(u, rho[x], u.Idx(rho[x])), rho - {x}, y)
  {
    hide Tree.Valid;
    ShapeFacts(h, u, rho);
    ParentFacts(h, x);
    forall y | y in rho && y != x
      ensures SameKids(Prune(h, x, h.Idx(x)), Prune(u, rho[x], h.Idx(x)), rho - {x}, y)
    {
      NoOtherParent(h, x, y);
      PruneKidsOf(h, u, rho, x, h.Idx(x), y);
    }
  }

  lemma PruneKidsOf(h: Tree<int>, u: Tree<int>, rho: map<int, int>, x: int, i: nat, y: int)
    requires Injective(rho) && x in rho && y in rho && y != x && x in h.parent && rho[x] in u.parent
    requires h.parent[x] in rho && h.parent[x] in h.kids && u.parent[rho[x]] == rho[h.parent[x]]
    requires rho[h.parent[x]] in u.kids
    requires i < |h.kids[h.parent[x]]| && i < |u.kids[rho[h.parent[x]]]|
    requires SameKids(h, u, rho, y)
    requires forall j :: 0 <= j < |h.kids[y]| && h.kids[y][j] == x ==> y == h.parent[x] && j == i
    ensures SameKids(Prune(h, x, i), Prune(u, rho[x], i), rho - {x}, y)
  {
    if y == h.parent[x] {
      assert forall j :: 0 <= j < |h.kids[y]| - 1 ==>
          Without(h.kids[y], i)[j] == h.kids[y][if j < i then j else j + 1]
          && Without(u.kids[rho[y]], i)[j] == u.kids[rho[y]][if j < i then j else j + 1];
    }
  }

  /** `x` appears in its parent's list only, and there only once. */
  lemma NoOtherParent(t: Tree<int>, x: int, y: int)
    requires t.Valid() && x in t.parent && y in t.kids
    ensures forall j :: 0 <= j < |t.kids[y]| && t.kids[y][j] == x ==> y == t.parent[x] && j == t.Idx(x)
  {
  }

  /** The search order is renamed with the tree. */
  lemma {:induction false} VisitRenamed(h: Tree<int>, u: Tree<int>, rho: map<int, int>, hd: set<int>, ud: set<int>,
                                        p: int, i: nat)
    requires Shape(h, u, rho) && p in h.kids && p in rho && i <= |h.kids[p]|
    requires forall x :: x in rho ==> (x in hd <==> rho[x] in ud)
    ensures rho[p] in u.kids && i <= |u.kids[rho[p]]|
    ensures var s := Visit(h, h.kids.Keys, hd, p, i);
            && (forall k :: 0 <= k < |s| ==> s[k] in rho)
            && Visit(u, u.kids.Keys, ud, rho[p], i) == Ren(rho, s)
    decreases if p in h.depth then h.bound - h.depth[p] else 0, |h.kids[p]| - i
  {
    hide Tree.Valid, Hits, Visit, Shape;
    ShapeFacts(h, u, rho);
    assert SameKids(h, u, rho, p);
    VisitAndHits(h, h.kids.Keys, hd, p, i, 0);
    VisitAndHits(u, u.kids.Keys, ud, rho[p], i, 0);
    if i < |h.kids[p]| {
      var c := h.kids[p][i];
      ChildFacts(h, p, i);
      VisitRenamed(h, u, rho, hd, ud, c, 0);
      VisitRenamed(h, u, rho, hd, ud, p, i + 1);
      RenThree(rho, if c in hd then Visit(h, h.kids.Keys, hd, c, 0) else [], c, Visit(h, h.kids.Keys, hd, p, i + 1));
    }
  }

  lemma RenThree(rho: map<int, int>, a: seq<int>, c: int, b: seq<int>)
    requires (forall k :: 0 <= k < |a| ==> a[k] in rho) && c in rho && forall k :: 0 <= k < |b| ==> b[k] in rho
    ensures forall k :: 0 <= k < |a + [c] + b| ==> (a + [c] + b)[k] in rho
    ensures Ren(rho, a + [c] + b) == Ren(rho, a) + [rho[c]] + Ren(rho, b)
  {
  }

  lemma {:induction false} FirstRenamed(rho: map<int, int>, s: seq<int>, f: int -> bool, g: int -> bool)
    requires forall k :: 0 <= k < |s| ==> s[k] in rho && (f(s[k]) <==> g(rho[s[k]]))
    ensures var a, b := First(s, f), First(Ren(rho, s), g);
            && (a.Nothing? ==> b.Nothing?)
            && (a.Entry? ==> a.node in rho && b == Entry(rho[a.node]))
  {
    if s != [] {
      assert Ren(rho, s)[1..] == Ren(rho, s[1..]);
      FirstRenamed(rho, s[1..], f, g);
    }
  }
}
