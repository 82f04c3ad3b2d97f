/**
 A tree without some of its subtrees.  Growing and pruning the rest commute with the cut, and a
 search of the whole tree that ends in the rest finds what the search of the rest finds.
 */
module Cuts {
  import opened Trees
  import opened Searches

  /** `s` without the elements in `away`. */
  function Keep(s: seq<int>, away: set<int>): (r: seq<int>)
    ensures forall x :: x in r <==> x in s && x !in away
  {
    if s == [] then [] else if s[0] in away then Keep(s[1..], away) else [s[0]] + Keep(s[1..], away)
  }

  ghost predicate AllDistinct(s: seq<int>) { forall i, j :: 0 <= i < j < |s| ==> s[i] != s[j] }

  lemma {:induction false} KeepAppend(a: seq<int>, b: seq<int>, away: set<int>)
    ensures Keep(a + b, away) == Keep(a, away) + Keep(b, away)
  {
    if a == [] {
      assert a + b == b;
    } else {
      assert (a + b)[1..] == a[1..] + b;
      KeepAppend(a[1..], b, away);
    }
  }

  lemma {:induction false} KeepDistinct(s: seq<int>, away: set<int>)
    requires AllDistinct(s)
    ensures AllDistinct(Keep(s, away))
  {
    if s != [] {
      KeepDistinct(s[1..], away);
      assert s[0] !in s[1..];
    }
  }

  /** Only the elements of `s` matter. */
  lemma {:induction false} KeepSame(s: seq<int>, a: set<int>, b: set<int>)
    requires forall x :: x in s ==> (x in a <==> x in b)
    ensures Keep(s, a) == Keep(s, b)
  {
    if s != [] {
      var x := s[0];
      assert x in s;
      KeepSame(s[1..], a, b);
    }
  }

  lemma {:induction false} KeepAll(s: seq<int>, away: set<int>)
    requires forall x :: x in s ==> x !in away
    ensures Keep(s, away) == s
  {
    if s != [] {
      var x := s[0];
      assert x in s && s == [x] + s[1..];
      KeepAll(s[1..], away);
    }
  }

  lemma KeepOne(x: int, away: set<int>)
    ensures Keep([x], away) == if x in away then [] else [x]
  {
    assert [x][1..] == [];
  }

  /** Taking the one occurrence of `x` out of the list, or putting `x` aside. */
  lemma KeepWithout(s: seq<int>, away: set<int>, i: nat)
    requires AllDistinct(s) && i < |s|
    ensures Keep(Without(s, i), away) == Keep(s, away + {s[i]})
  {
    var x, more := s[i], away + {s[i]};
    assert s == s[..i] + ([x] + s[i + 1..]);
    KeepAppend(s[..i], [x] + s[i + 1..], more);
    KeepAppend([x], s[i + 1..], more);
    KeepOne(x, more);
    KeepAppend(s[..i], s[i + 1..], away);
    KeepSame(s[..i], away, more);
    KeepSame(s[i + 1..], away, more);
  }

  lemma {:induction false} KeepTwice(s: seq<int>, a: set<int>, b: set<int>)
    ensures Keep(Keep(s, a), b) == Keep(s, a + b)
  {
    if s != [] {
      KeepTwice(s[1..], a, b);
      if s[0] !in a { assert ([s[0]] + Keep(s[1..], a))[1..] == Keep(s[1..], a); }
    }
  }

  /** The same on what is left of the list. */
  lemma KeepMore(s: seq<int>, away: set<int>, i: nat)
    requires AllDistinct(s) && i < |Keep(s, away)|
    ensures Keep(s, away + {Keep(s, away)[i]}) == Without(Keep(s, away), i)
  {
    var r, x := Keep(s, away), Keep(s, away)[i];
    KeepDistinct(s, away);
    KeepTwice(s, away, {x});
    KeepWithout(r, {}, i);
    assert {} + {x} == {x};
    KeepAll(Without(r, i), {});
  }

  // ---------------------------------------------------------------- trees

  /** `away` holds no root, and with an entry everything below it. */
  ghost predicate Closed(t: Tree<int>, away: set<int>) {
    away <= t.parent.Keys && forall x :: x in t.parent && t.parent[x] in away ==> x in away
  }

  /** The tree without the entries in `away`. */
  ghost function Cut(t: Tree<int>, away: set<int>): Tree<int> {
    Tree(t.root, map p | p in t.kids && p !in away :: Keep(t.kids[p], away), t.parent - away, t.depth - away, t.bound)
  }

  lemma KidsDistinct(t: Tree<int>, p: int)
    requires t.Valid() && p in t.kids
    ensures AllDistinct(t.kids[p])
  {
    forall i, j | 0 <= i < j < |t.kids[p]| ensures t.kids[p][i] != t.kids[p][j] { Distinct(t, p, i, j); }
  }

  lemma KidOf(t: Tree<int>, p: int, x: int)
    requires t.Valid() && p in t.kids && x in t.kids[p]
    ensures x in t.parent && t.parent[x] == p && x in t.kids && p in t.depth && x in t.depth && t.depth[x] == t.depth[p] + 1
  {
    var i :| 0 <= i < |t.kids[p]| && t.kids[p][i] == x;
    ChildFacts(t, p, i);
  }

  lemma CutValid(t: Tree<int>, away: set<int>)
    requires t.Valid() && Closed(t, away)
    ensures Cut(t, away).Valid()
  {
    hide Tree.Valid, Keep;
    RootFacts(t);
    var u := Cut(t, away);
    forall p, i | p in u.kids && 0 <= i < |u.kids[p]|
      ensures u.kids[p][i] in u.parent && u.parent[u.kids[p][i]] == p && u.depth[u.kids[p][i]] == u.depth[p] + 1
    {
      KidOf(t, p, Keep(t.kids[p], away)[i]);
    }
    forall p, i, j | p in u.kids && 0 <= i < j < |u.kids[p]| ensures u.kids[p][i] != u.kids[p][j] {
      KidsDistinct(t, p);
      KeepDistinct(t.kids[p], away);
    }
    forall y | y in u.parent ensures u.parent[y] in u.kids && y in u.kids[u.parent[y]] {
      HungBelow(t, y);
      assert y in Keep(t.kids[t.parent[y]], away);
    }
    ValidIntro(u);
  }

  lemma CutGrow(t: Tree<int>, away: set<int>, p: int, x: int)
    requires t.Valid() && p in t.kids && p !in away && x !in away && x !in t.kids
    ensures p in t.depth && p in Cut(t, away).kids && p in Cut(t, away).depth
    ensures Cut(Grow(t, p, x), away) == Grow(Cut(t, away), p, x)
  {
    hide Tree.Valid, Keep;
    RootFacts(t);
    var u, v := Cut(Grow(t, p, x), away), Grow(Cut(t, away), p, x);
    KeepAppend([x], t.kids[p], away);
    KeepOne(x, away);
    KeepNothing(away);
    assert u.kids == v.kids;
  }

  lemma KeepNothing(away: set<int>)
    ensures Keep([], away) == []
  {
  }

  /** Pruning an entry of the whole tree and putting it aside come to the same. */
  lemma CutPruned(t: Tree<int>, away: set<int>, x: int, i: nat)
    requires t.Valid() && x in t.parent && t.parent[x] in t.kids && i < |t.kids[t.parent[x]]| && t.kids[t.parent[x]][i] == x
    ensures Cut(Prune(t, x, i), away) == Cut(t, away + {x})
  {
    hide Tree.Valid, Keep;
    var u, v, q := Cut(Prune(t, x, i), away), Cut(t, away + {x}), t.parent[x];
    forall p | p in v.kids ensures p in u.kids && u.kids[p] == v.kids[p] {
      KidsDistinct(t, p);
      if p == q {
        KeepWithout(t.kids[p], away, i);
      } else {
        if x in t.kids[p] { KidOf(t, p, x); }
        KeepSame(t.kids[p], away, away + {x});
      }
    }
    assert u.kids == v.kids;
  }

  /** Pruning a leaf of what is left and putting it aside come to the same. */
  lemma CutMore(t: Tree<int>, away: set<int>, x: int)
    requires t.Valid() && Closed(t, away) && x in t.parent && x !in away
    ensures Cut(t, away).Valid() && x in Cut(t, away).parent && Cut(t, away).parent[x] in Cut(t, away).kids
    ensures Cut(t, away + {x}) == Prune(Cut(t, away), x, Cut(t, away).Idx(x))
  {
    hide Tree.Valid, Keep;
    CutValid(t, away);
    HungBelow(t, x);
    var c := Cut(t, away);
    ParentFacts(c, x);
    var u, v, q, i := Cut(t, away + {x}), Prune(c, x, c.Idx(x)), t.parent[x], c.Idx(x);
    forall p | p in u.kids ensures p in v.kids && u.kids[p] == v.kids[p] {
      KidsDistinct(t, p);
      if p == q {
        KeepMore(t.kids[p], away, i);
      } else {
        if x in t.kids[p] { KidOf(t, p, x); }
        KeepSame(t.kids[p], away, away + {x});
      }
    }
    assert u.kids == v.kids;
  }

  /** An entry that is not in the tree need not be put aside. */
  lemma CutLess(t: Tree<int>, away: set<int>, x: int)
    requires t.Valid() && x !in t.kids
    ensures Cut(t, away - {x}) == Cut(t, away)
  {
    hide Tree.Valid, Keep;
    RootFacts(t);
    var u, v := Cut(t, away - {x}), Cut(t, away);
    forall p | p in u.kids ensures p in v.kids && u.kids[p] == v.kids[p] {
      if x in t.kids[p] { KidOf(t, p, x); }
      KeepSame(t.kids[p], away - {x}, away);
    }
    assert u.kids == v.kids;
  }

  // ---------------------------------------------------------------- searching

  /** Below an entry put aside everything is put aside. */
  lemma {:induction false} VisitAway(t: Tree<int>, dirs: set<int>, away: set<int>, p: int, i: nat)
    requires t.Valid() && Closed(t, away) && p in away && p in t.kids && i <= |t.kids[p]|
    ensures Keep(Visit(t, t.kids.Keys, dirs, p, i), away) == []
    decreases if p in t.depth then t.bound - t.depth[p] else 0, |t.kids[p]| - i
  {
    hide Tree.Valid, Visit, Hits, Keep;
    VisitAndHits(t, t.kids.Keys, dirs, p, i, 0);
    KeepNothing(away);
    if i < |t.kids[p]| {
      var c := t.kids[p][i];
      ChildFacts(t, p, i);
      VisitAway(t, dirs, away, c, 0);
      VisitAway(t, dirs, away, p, i + 1);
      KeepThree(if c in dirs then Visit(t, t.kids.Keys, dirs, c, 0) else [], c, Visit(t, t.kids.Keys, dirs, p, i + 1), away);
    }
  }

  lemma KeepThree(a: seq<int>, c: int, b: seq<int>, away: set<int>)
    ensures Keep(a + [c] + b, away) == Keep(a, away) + (if c in away then [] else [c]) + Keep(b, away)
  {
    KeepAppend(a + [c], b, away);
    KeepAppend(a, [c], away);
    KeepOne(c, away);
  }

  /** The search order of what is left is the search order without the entries put aside. */
  lemma {:induction false} VisitCut(t: Tree<int>, dirs: set<int>, away: set<int>, p: int, i: nat)
    requires t.Valid() && Closed(t, away) && p in t.kids && p !in away && i <= |t.kids[p]|
    ensures Cut(t, away).Valid() && p in Cut(t, away).kids && |Keep(t.kids[p][..i], away)| <= |Cut(t, away).kids[p]|
    ensures Keep(Visit(t, t.kids.Keys, dirs, p, i), away)
            == Visit(Cut(t, away), Cut(t, away).kids.Keys, dirs - away, p, |Keep(t.kids[p][..i], away)|)
    decreases if p in t.depth then t.bound - t.depth[p] else 0, |t.kids[p]| - i
  {
    hide Tree.Valid, Visit, Hits, Keep;
    CutValid(t, away);
    var u, s, j := Cut(t, away), t.kids[p], |Keep(t.kids[p][..i], away)|;
    assert s == s[..i] + s[i..];
    KeepAppend(s[..i], s[i..], away);
    KeepNothing(away);
    VisitAndHits(t, t.kids.Keys, dirs, p, i, 0);
    if i == |s| {
      VisitAndHits(u, u.kids.Keys, dirs - away, p, j, 0);
    } else {
      var c := s[i];
      ChildFacts(t, p, i);
      assert s[..i + 1] == s[..i] + [c] && s[i..] == [c] + s[i + 1..];
      KeepAppend(s[..i], [c], away);
      KeepAppend([c], s[i + 1..], away);
      KeepOne(c, away);
      var a, b := if c in dirs then Visit(t, t.kids.Keys, dirs, c, 0) else [], Visit(t, t.kids.Keys, dirs, p, i + 1);
      KeepThree(a, c, b, away);
      VisitCut(t, dirs, away, p, i + 1);
      if c in away {
        VisitAway(t, dirs, away, c, 0);
      } else {
        VisitAndHits(u, u.kids.Keys, dirs - away, p, j, 0);
        VisitCut(t, dirs, away, c, 0);
        assert t.kids[c][..0] == [];
      }
    }
  }

  /** A search that ends in an entry not put aside ends there without the others too. */
  lemma {:induction false} FirstKept(s: seq<int>, away: set<int>, matches: int -> bool)
    ensures var r := First(s, matches);
            (r.Nothing? || r.node !in away) ==> First(Keep(s, away), matches) == r
  {
    if s != [] {
      FirstKept(s[1..], away, matches);
      if s[0] !in away { assert ([s[0]] + Keep(s[1..], away))[1..] == Keep(s[1..], away); }
    }
  }
}
