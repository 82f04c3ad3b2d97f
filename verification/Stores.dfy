/**
 The memory of the dentry cache as a value, and what it means that a state is sound and that one
 state is another with the entries nobody holds freed.
 */
module Stores {
  import opened Trees

  ghost function LiveOf(hashed: set<Ref>, inode: map<Ref, nat>): set<Ref> {
    set d | d in hashed && d in inode && inode[d] != 0
  }

  /** The memory of the dentry cache, one map per field.  `tree` holds the d_parent pointers and
      the d_subdirs lists, `inode` the number of the attached inode or 0 for a negative entry, and
      `dirs` the inode numbers handed out to directories.
      A freed dentry leaves the store, so following a stale pointer is a verification error. */
  datatype Store = Store(tree: Tree<Ref>, count: map<Ref, int>, inode: map<Ref, nat>, hashed: set<Ref>,
                         name: map<Ref, string>, dirs: set<nat>) {

    ghost predicate Wired() {
      && tree.Valid() && count.Keys == tree.kids.Keys && inode.Keys == tree.kids.Keys
      && name.Keys == tree.kids.Keys && hashed <= tree.kids.Keys
    }

    predicate Live(d: Ref) {
      d in hashed && d in inode && inode[d] != 0
    }

    predicate IsDir(d: Ref) { d in inode && inode[d] in dirs }

    ghost function LiveSet(): (s: set<Ref>)
      ensures forall d :: d in s <==> Live(d)
    {
      LiveOf(hashed, inode)
    }

    /** `d` is a child of `dir` that a lookup of `nm` finds. */
    predicate Finds(dir: Ref, nm: string, d: Ref) {
      dir in tree.kids && d in tree.kids[dir] && d in hashed && d in name && name[d] == nm
    }

    /** The store with a new negative entry `x` below `dir`. */
    function Add(dir: Ref, nm: string, x: Ref): Store
      requires dir in tree.kids && dir in tree.depth && dir in count
    {
      Store(Grow(tree, dir, x), count[dir := count[dir] + 1][x := 1], inode[x := 0], hashed + {x}, name[x := nm], dirs)
    }

    /** The store with an inode attached to the negative entry `d`. */
    function Born(d: Ref, ino: nat, isDir: bool): Store {
      this.(inode := inode[d := ino], dirs := if isDir then dirs + {ino} else dirs)
    }

    /** The store after entry `x`, the `i`-th child of its parent, has been freed. */
    function Free(x: Ref, i: nat): Store
      requires x in tree.parent && tree.parent[x] in tree.kids && i < |tree.kids[tree.parent[x]]|
    {
      Store(Prune(tree, x, i), count - {x}, inode - {x}, hashed - {x}, name - {x}, dirs)
    }
  }

  lemma AddWired(s: Store, dir: Ref, nm: string, x: Ref)
    requires s.Wired() && dir in s.tree.kids && dir in s.tree.depth && x !in s.tree.kids
    ensures s.Add(dir, nm, x).Wired() && s.Add(dir, nm, x).LiveSet() == s.LiveSet()
  {
    hide Tree.Valid;
    GrowValid(s.tree, dir, x);
  }

  lemma FreeWired(s: Store, x: Ref, i: nat)
    requires s.Wired() && x in s.tree.parent && x in s.tree.kids && s.tree.kids[x] == []
    requires s.tree.parent[x] in s.tree.kids && i < |s.tree.kids[s.tree.parent[x]]|
    requires s.tree.kids[s.tree.parent[x]][i] == x
    ensures s.Free(x, i).Wired() && s.Free(x, i).LiveSet() == s.LiveSet() - {x}
  {
    hide Tree.Valid;
    PruneValid(s.tree, x, i);
  }

  /** Going from `s0` to `s` some entries nobody held were freed; everything about the others
      is as it was, but for their lists and counts. */
  ghost predicate Kept(s0: Store, refs0: map<Ref, nat>, s: Store, refs: map<Ref, nat>, pinned: set<Ref>) {
    && s.tree.kids.Keys <= s0.tree.kids.Keys && s.tree.root == s0.tree.root && s.dirs == s0.dirs
    && (forall x :: x in s.tree.kids ==>
          && x in s.inode && x in s0.inode && s.inode[x] == s0.inode[x] && (x in s.hashed <==> x in s0.hashed)
          && x in s.name && x in s0.name && s.name[x] == s0.name[x]
          && x in refs && x in refs0 && refs[x] == refs0[x])
    && (forall x :: x in s.tree.parent ==> x in s0.tree.parent && s.tree.parent[x] == s0.tree.parent[x])
    && (forall x :: x in s0.tree.kids && x !in s.tree.kids ==> x !in pinned && x in refs0 && refs0[x] == 0)
    && s.hashed <= s.tree.kids.Keys
  }

  lemma KeptSelf(s: Store, refs: map<Ref, nat>, pinned: set<Ref>)
    requires s.Wired() && refs.Keys == s.tree.kids.Keys
    ensures forall c :: Kept(s, refs, s.(count := c), refs, pinned)
    ensures Kept(s, refs, s, refs, pinned)
  {
    hide Tree.Valid;
    RootFacts(s.tree);
  }

  lemma KeptChain(s0: Store, refs0: map<Ref, nat>, s1: Store, refs1: map<Ref, nat>, s2: Store, refs2: map<Ref, nat>,
                  pinned: set<Ref>)
    requires Kept(s0, refs0, s1, refs1, pinned) && Kept(s1, refs1, s2, refs2, pinned)
    ensures Kept(s0, refs0, s2, refs2, pinned)
  {
  }

  lemma FreeKept(s: Store, refs: map<Ref, nat>, pinned: set<Ref>, x: Ref, i: nat)
    requires s.Wired() && refs.Keys == s.tree.kids.Keys && x in s.tree.parent && s.tree.parent[x] in s.tree.kids
    requires i < |s.tree.kids[s.tree.parent[x]]| && x !in pinned && x in refs && refs[x] == 0
    ensures Kept(s, refs, s.Free(x, i), refs - {x}, pinned)
  {
  }

  lemma KeptAnyCount(s0: Store, refs0: map<Ref, nat>, s: Store, refs: map<Ref, nat>, pinned: set<Ref>, count: map<Ref, int>)
    requires Kept(s0, refs0, s, refs, pinned)
    ensures Kept(s0.(count := count), refs0, s, refs, pinned) && Kept(s0, refs0, s.(count := count), refs, pinned)
  {
  }

  /** An entry that was made negative and then freed might as well have been unhashed. */
  lemma KeptDead(s0: Store, refs0: map<Ref, nat>, s: Store, refs: map<Ref, nat>, pinned: set<Ref>, d: Ref)
    requires d in s0.inode && Kept(s0.(inode := s0.inode[d := 0]), refs0, s, refs, pinned) && d !in s.tree.kids
    ensures Kept(s0.(hashed := s0.hashed - {d}), refs0, s, refs, pinned)
  {
  }

  lemma KeptLeft(s0: Store, refs0: map<Ref, nat>, s: Store, refs: map<Ref, nat>, pinned: set<Ref>, d: Ref, dead: bool)
    requires d in s0.inode && (dead ==> d !in s.tree.kids)
    requires Kept(if dead then s0.(inode := s0.inode[d := 0]) else s0.(hashed := s0.hashed - {d}), refs0, s, refs, pinned)
    ensures Kept(s0.(hashed := s0.hashed - {d}), refs0, s, refs, pinned)
  {
    hide Kept;
    if dead { KeptDead(s0, refs0, s, refs, pinned, d); }
  }

  lemma Restored(m: map<Ref, nat>, d: Ref, n: nat)
    requires d in m
    ensures m[d := n][d := m[d]] == m
  {
  }

  /** Another number of references on an entry that is still there. */
  lemma KeptRef(s0: Store, refs0: map<Ref, nat>, s: Store, refs: map<Ref, nat>, pinned: set<Ref>, d: Ref, n: nat)
    requires Kept(s0, refs0, s, refs, pinned) && d in s.tree.kids
    ensures Kept(s0, refs0[d := n], s, refs[d := n], pinned)
  {
  }

  // ---------------------------------------------------------------- sound states

  /** Two entries a lookup could not tell apart. */
  ghost predicate Twins(s: Store, x: Ref, y: Ref) {
    && x in s.hashed && y in s.hashed && x in s.tree.parent && y in s.tree.parent && s.tree.parent[x] == s.tree.parent[y]
    && x in s.name && y in s.name && s.name[x] == s.name[y]
  }

  /** Pinned entries have an inode, the entries of inodes in the mapping table (`foreign`) are
      pinned, no two hashed children of one directory share a name, and only directories have
      children. */
  ghost predicate Sane(s: Store, pinned: set<Ref>, foreign: set<nat>) {
    && (forall d :: d in pinned ==> d == s.tree.root || (d in s.inode && s.inode[d] != 0))
    && (forall d :: d in s.inode && s.inode[d] in foreign ==> d in pinned)
    && (forall x, y :: Twins(s, x, y) ==> x == y)
    && (forall x :: x in s.tree.parent ==> s.IsDir(s.tree.parent[x]))
    && s.IsDir(s.tree.root) && 0 !in foreign && 0 !in s.dirs
  }

  lemma SaneKept(s0: Store, refs0: map<Ref, nat>, s: Store, refs: map<Ref, nat>, pinned: set<Ref>, foreign: set<nat>)
    requires Kept(s0, refs0, s, refs, pinned) && Sane(s0, pinned, foreign)
    requires pinned <= s.tree.kids.Keys && s.Wired()
    ensures Sane(s, pinned, foreign)
  {
    hide Tree.Valid;
    RootFacts(s.tree);
    forall x | x in s.tree.parent ensures s.IsDir(s.tree.parent[x]) { ParentFacts(s.tree, x); }
    forall x, y | Twins(s, x, y) ensures x == y { assert Twins(s0, x, y); }
  }

  lemma SaneAnyCount(s: Store, pinned: set<Ref>, foreign: set<nat>, count: map<Ref, int>)
    requires Sane(s, pinned, foreign)
    ensures Sane(s.(count := count), pinned, foreign)
  {
    forall x, y | Twins(s.(count := count), x, y) ensures x == y { assert Twins(s, x, y); }
  }

  lemma SaneAdd(s: Store, pinned: set<Ref>, foreign: set<nat>, dir: Ref, nm: string, x: Ref)
    requires s.Wired() && Sane(s, pinned, foreign) && pinned <= s.tree.kids.Keys
    requires dir in s.tree.kids && dir in s.tree.depth && x !in s.tree.kids && s.IsDir(dir) && forall c :: !s.Finds(dir, nm, c)
    ensures Sane(s.Add(dir, nm, x), pinned, foreign)
  {
    hide Tree.Valid;
    RootFacts(s.tree);
    var t := s.Add(dir, nm, x);
    forall y, z | Twins(t, y, z) ensures y == z {
      if y != x && z != x { assert Twins(s, y, z); }
      else if y != x { NamedFound(s, y); }
      else if z != x { NamedFound(s, z); }
    }
  }

  lemma SaneBorn(s: Store, pinned: set<Ref>, foreign: set<nat>, d: Ref, ino: nat, isDir: bool)
    requires Sane(s, pinned, foreign) && d in s.inode && s.inode[d] == 0 && ino != 0
    ensures Sane(s.Born(d, ino, isDir), pinned + {d}, foreign)
  {
    var t := s.Born(d, ino, isDir);
    forall x, y | Twins(t, x, y) ensures x == y { assert Twins(s, x, y); }
  }

  lemma SaneUnhashed(s: Store, pinned: set<Ref>, foreign: set<nat>, d: Ref)
    requires Sane(s, pinned, foreign)
    ensures Sane(s.(hashed := s.hashed - {d}), pinned, foreign)
  {
    var t := s.(hashed := s.hashed - {d});
    forall x, y | Twins(t, x, y) ensures x == y { assert Twins(s, x, y); }
  }

  lemma SaneNegative(s: Store, pinned: set<Ref>, foreign: set<nat>, d: Ref)
    requires Sane(s, pinned, foreign) && d in s.inode && d !in pinned
    requires d != s.tree.root && forall x :: x in s.tree.parent ==> s.tree.parent[x] != d
    ensures Sane(s.(inode := s.inode[d := 0]), pinned, foreign)
  {
    var t := s.(inode := s.inode[d := 0]);
    forall x, y | Twins(t, x, y) ensures x == y { assert Twins(s, x, y); }
  }

  lemma SaneUnpinned(s: Store, pinned: set<Ref>, foreign: set<nat>, d: Ref)
    requires Sane(s, pinned, foreign) && (d in s.inode ==> s.inode[d] !in foreign)
    ensures Sane(s, pinned - {d}, foreign)
  {
  }

  lemma SaneForeign(s: Store, pinned: set<Ref>, foreign: set<nat>, ino: nat)
    requires Sane(s, pinned, foreign) && ino != 0 && forall d :: d in s.inode && s.inode[d] == ino ==> d in pinned
    ensures Sane(s, pinned, foreign + {ino})
  {
  }

  lemma SaneForget(s: Store, pinned: set<Ref>, foreign: set<nat>, ino: nat)
    requires Sane(s, pinned, foreign)
    ensures Sane(s, pinned, foreign - {ino})
  {
  }

  /** The children a lookup finds are one at most. */
  lemma FoundOnce(s: Store, pinned: set<Ref>, foreign: set<nat>, dir: Ref, nm: string, c: Ref, d: Ref)
    requires s.Wired() && Sane(s, pinned, foreign) && s.Finds(dir, nm, c) && s.Finds(dir, nm, d)
    ensures c == d
  {
    hide Tree.Valid;
    FindsFacts(s, dir, nm, c);
    FindsFacts(s, dir, nm, d);
    assert Twins(s, c, d);
  }

  lemma NamedFound(s: Store, d: Ref)
    requires s.Wired() && d in s.hashed && d in s.tree.parent && d in s.name
    ensures s.Finds(s.tree.parent[d], s.name[d], d)
  {
    hide Tree.Valid;
    ParentFacts(s.tree, d);
  }

  lemma FindsFacts(s: Store, dir: Ref, nm: string, d: Ref)
    requires s.Wired() && s.Finds(dir, nm, d)
    ensures d in s.tree.parent && s.tree.parent[d] == dir && d in s.tree.kids && d in s.inode && d != s.tree.root
  {
    hide Tree.Valid;
    var i :| 0 <= i < |s.tree.kids[dir]| && s.tree.kids[dir][i] == d;
    ChildFacts(s.tree, dir, i);
  }
}
