/**
 The two recursive searches of the name space, by name and by inode number.  Both look below a
 child before they look at the child itself, and skip negative entries with everything below.
 */
module Searches {
  import opened Trees

  datatype Found<+N> = Nothing | Entry(node: N)

  /** The entries in the order the search looks at them: positive ones only, and the children
      of directories only. */
  ghost function Visit<N>(t: Tree<N>, pos: set<N>, dirs: set<N>, p: N, i: nat): (s: seq<N>)
    requires t.Valid() && p in t.kids && i <= |t.kids[p]|
    decreases t.bound - t.depth[p], |t.kids[p]| - i
  {
    if i == |t.kids[p]| then []
    else
      var c := t.kids[p][i];
      (if c in pos then (if c in dirs then Visit(t, pos, dirs, c, 0) else []) + [c] else []) + Visit(t, pos, dirs, p, i + 1)
  }

  function First<N>(s: seq<N>, matches: N -> bool): (r: Found<N>)
    ensures r.Entry? ==> r.node in s && matches(r.node)
    ensures r.Nothing? ==> forall x :: x in s ==> !matches(x)
  {
    if s == [] then Nothing else if matches(s[0]) then Entry(s[0]) else First(s[1..], matches)
  }

  lemma {:induction false} FirstAppend<N>(a: seq<N>, b: seq<N>, matches: N -> bool)
    ensures First(a + b, matches) == if First(a, matches).Entry? then First(a, matches) else First(b, matches)
  {
    if a == [] {
      assert a + b == b;
    } else {
      assert (a + b)[1..] == a[1..] + b;
      FirstAppend(a[1..], b, matches);
    }
  }

  lemma FirstOne<N>(c: N, matches: N -> bool)
    ensures First([c], matches) == if matches(c) then Entry(c) else Nothing
  {
    assert [c][1..] == [];
  }

  /** One turn of the list loop. */
  lemma FirstStep<N>(t: Tree<N>, pos: set<N>, dirs: set<N>, p: N, i: nat, matches: N -> bool)
    requires t.Valid() && p in t.kids && i < |t.kids[p]|
    ensures var c := t.kids[p][i];
            && c in t.kids
            && var rest := First(Visit(t, pos, dirs, p, i + 1), matches);
               var below := First(Visit(t, pos, dirs, c, 0), matches);
               First(Visit(t, pos, dirs, p, i), matches)
               == if c !in pos then rest
                  else if c in dirs && below.Entry? then below
                  else if matches(c) then Entry(c) else rest
  {
    hide Tree.Valid, Visit, First;
    VisitStep(t, pos, dirs, p, i);
    var c := t.kids[p][i];
    var b := Visit(t, pos, dirs, p, i + 1);
    if c in pos {
      var a := if c in dirs then Visit(t, pos, dirs, c, 0) else [];
      FirstAppend(a + [c], b, matches);
      FirstAppend(a, [c], matches);
      FirstOne(c, matches);
      FirstNone(matches);
    }
  }

  lemma VisitStep<N>(t: Tree<N>, pos: set<N>, dirs: set<N>, p: N, i: nat)
    requires t.Valid() && p in t.kids && i < |t.kids[p]|
    ensures var c := t.kids[p][i];
            && c in t.kids
            && Visit(t, pos, dirs, p, i)
               == if c !in pos then Visit(t, pos, dirs, p, i + 1)
                  else (if c in dirs then Visit(t, pos, dirs, c, 0) else []) + [c] + Visit(t, pos, dirs, p, i + 1)
  {
    assert [] + Visit(t, pos, dirs, p, i + 1) == Visit(t, pos, dirs, p, i + 1);
  }

  lemma FirstNone<N>(matches: N -> bool)
    ensures First([], matches) == Nothing
  {
  }

  /** find_from_all_dentry and find_dentry_by_ino, which differ only in what they compare: the
      first match in search order. */
  method Find<N>(t: Tree<N>, pos: set<N>, dirs: set<N>, dentry: N, matches: N -> bool) returns (r: Found<N>)
    requires t.Valid() && dentry in t.kids
    ensures r == First(Visit(t, pos, dirs, dentry, 0), matches)
    decreases t.bound - t.depth[dentry]
  {
    hide Tree.Valid, Visit;
    var i := 0;
    while i < |t.kids[dentry]|
      invariant i <= |t.kids[dentry]|
      invariant First(Visit(t, pos, dirs, dentry, i), matches) == First(Visit(t, pos, dirs, dentry, 0), matches)
    {
      var sub := t.kids[dentry][i];
      FirstStep(t, pos, dirs, dentry, i, matches);
      ChildFacts(t, dentry, i);
      if sub in pos {
        if sub in dirs {
          var ans := Find(t, pos, dirs, sub, matches);
          if ans.Entry? && matches(ans.node) { return ans; }
        }
        if matches(sub) { return Entry(sub); }
      }
      i := i + 1;
    }
    VisitEnd(t, pos, dirs, dentry);
    return Nothing;
  }

  lemma VisitEnd<N>(t: Tree<N>, pos: set<N>, dirs: set<N>, p: N)
    requires t.Valid() && p in t.kids
    ensures Visit(t, pos, dirs, p, |t.kids[p]|) == []
  {
  }

  /** When only directories have children the search looks at each entry as often as the walk
      through positive entries touches it: once if all its ancestors are positive, else never. */
  lemma {:induction false} VisitHits<N>(t: Tree<N>, pos: set<N>, dirs: set<N>, p: N, i: nat, x: N)
    requires t.Valid() && p in t.kids && i <= |t.kids[p]|
    requires forall d :: d in t.kids && t.kids[d] != [] ==> d in dirs
    ensures multiset(Visit(t, pos, dirs, p, i))[x] == Hits(t, pos, p, i, x)
    decreases t.bound - t.depth[p], |t.kids[p]| - i
  {
    hide Tree.Valid, Hits, Visit;
    VisitAndHits(t, pos, dirs, p, i, x);
    if i < |t.kids[p]| {
      var c := t.kids[p][i];
      ChildFacts(t, p, i);
      VisitHits(t, pos, dirs, p, i + 1, x);
      if c in dirs { VisitHits(t, pos, dirs, c, 0, x); } else { VisitAndHits(t, pos, dirs, c, 0, x); }
      AppendCount(if c in dirs then Visit(t, pos, dirs, c, 0) else [], c, Visit(t, pos, dirs, p, i + 1), x);
    }
  }

  /** The two walks unfolded once. */
  lemma VisitAndHits<N>(t: Tree<N>, pos: set<N>, dirs: set<N>, p: N, i: nat, x: N)
    requires t.Valid() && p in t.kids && i <= |t.kids[p]|
    ensures i == |t.kids[p]| ==> Visit(t, pos, dirs, p, i) == [] && Hits(t, pos, p, i, x) == 0
    ensures i < |t.kids[p]| ==>
              var c := t.kids[p][i];
              && c in t.kids
              && Hits(t, pos, p, i, x)
                 == (if c in pos then Hits(t, pos, c, 0, x) + (if x == c then 1 else 0) else 0) + Hits(t, pos, p, i + 1, x)
              && var b := Visit(t, pos, dirs, p, i + 1);
                 var a := if c in dirs then Visit(t, pos, dirs, c, 0) else [];
                 Visit(t, pos, dirs, p, i) == if c in pos then a + [c] + b else b
  {
  }

  /** A search from the root fails exactly when no entry reached through positive ones matches,
      and otherwise returns such an entry; if there is only one, that one. */
  lemma FindComplete<N(!new)>(t: Tree<N>, pos: set<N>, dirs: set<N>, matches: N -> bool)
    requires t.Valid() && forall d :: d in t.kids && t.kids[d] != [] ==> d in dirs
    ensures var r := First(Visit(t, pos, dirs, t.root, 0), matches);
            && (r.Nothing? <==> forall x :: x in t.parent && Reach(t, pos, x) ==> !matches(x))
            && (r.Entry? ==> r.node in t.parent && Reach(t, pos, r.node) && matches(r.node))
  {
    var s := Visit(t, pos, dirs, t.root, 0);
    forall x ensures x in s <==> x in t.parent && Reach(t, pos, x) {
      VisitHits(t, pos, dirs, t.root, 0, x);
      if x in t.kids { HitsFromRoot(t, pos, x); } else { NeverHitsStrangers(t, pos, t.root, 0, x); }
      assert x in s <==> multiset(s)[x] > 0;
    }
  }
}
