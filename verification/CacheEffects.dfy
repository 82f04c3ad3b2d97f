/**
 What each operation does to the name space, said of the states before and after: which requests get
 through, which entry they change and how, and that they leave every other entry alone.
 */
module CacheEffects {
  import opened Trees
  import opened RefCounts
  import opened Stores
  import opened CacheRuns

  /** Nothing differs but the order of lists. */
  ghost predicate Unchanged(c: Cache, c': Cache) {
    && c'.s.tree.kids.Keys == c.s.tree.kids.Keys && c'.s.tree.parent == c.s.tree.parent && c'.s.count == c.s.count
    && c'.s.inode == c.s.inode && c'.s.hashed == c.s.hashed && c'.s.name == c.s.name && c'.s.dirs == c.s.dirs
    && c'.pinned == c.pinned && c'.refs == c.refs && c'.foreign == c.foreign
  }

  /** Entry `x` has the same inode, hashing, name, users and parent in both states. */
  ghost predicate SameAt(c: Cache, c': Cache, x: Ref) {
    && x in c.s.inode && x in c'.s.inode && c'.s.inode[x] == c.s.inode[x] && (x in c'.s.hashed <==> x in c.s.hashed)
    && x in c.s.name && x in c'.s.name && c'.s.name[x] == c.s.name[x]
    && x in c.refs && x in c'.refs && c'.refs[x] == c.refs[x]
    && (x in c'.s.tree.parent <==> x in c.s.tree.parent)
    && (x in c.s.tree.parent ==> c'.s.tree.parent[x] == c.s.tree.parent[x])
  }

  /** Entry `x` keeps its pin; it is as it was or gone, and gone only if nobody holds it. */
  ghost predicate EntryKept(c: Cache, c': Cache, x: Ref) {
    && (x in c'.pinned <==> x in c.pinned)
    && (x in c'.s.tree.kids ==> x in c.s.tree.kids && SameAt(c, c', x))
    && (x in c.s.tree.kids && x in c.refs && (x in c.pinned || c.refs[x] > 0) ==> x in c'.s.tree.kids)
  }

  ghost predicate OthersKept(c: Cache, c': Cache, d: Ref) {
    c'.s.tree.root == c.s.tree.root && forall x :: x != d ==> EntryKept(c, c', x)
  }

  /** The effect does not touch `x`. */
  ghost predicate Aside(c: Cache, e: Cache, x: Ref) {
    && (x in e.pinned <==> x in c.pinned) && (x in e.s.tree.kids <==> x in c.s.tree.kids)
    && (x in c.s.tree.kids ==> SameAt(c, e, x))
  }

  lemma AsideKept(c: Cache, e: Cache, c': Cache, x: Ref)
    requires Good(c) && Settled(e, c') && e.s.tree.root == c.s.tree.root && Aside(c, e, x)
    ensures EntryKept(c, c', x)
  {
    hide Tree.Valid, Due, Sane;
    GoodFacts(c);
    GoodFacts(c');
  }

  lemma AllAside(c: Cache, e: Cache, c': Cache, d: Ref)
    requires Good(c) && Settled(e, c') && e.s.tree.root == c.s.tree.root && forall x :: x != d ==> Aside(c, e, x)
    ensures OthersKept(c, c', d)
  {
    hide Good, Settled, Aside, EntryKept;
    SettledRoot(e, c');
    forall x | x != d ensures EntryKept(c, c', x) { AsideKept(c, e, c', x); }
  }

  lemma SettledRoot(e: Cache, c: Cache)
    requires Settled(e, c)
    ensures c.s.tree.root == e.s.tree.root && c.pinned == e.pinned && c.foreign == e.foreign && c.s.dirs == e.s.dirs && Good(c)
  {
    hide Good;
  }

  /** A request that does not get through changes nothing. */
  lemma NothingDone(c: Cache, c': Cache)
    requires Good(c) && Settled(c, c')
    ensures Unchanged(c, c')
  {
    hide Good, Settled;
    SettledSelf(c, c);
    SettledOnce(c, c', c);
    SettledRoot(c, c');
  }

  // ---------------------------------------------------------------- removing

  /** The entry is in the name space, below a directory of the name space. */
  predicate InPlace(c: Cache, d: Ref) {
    && d in c.s.tree.parent && d in c.s.hashed && d in c.s.inode && c.s.inode[d] != 0
    && var p := c.s.tree.parent[d]; p == c.s.tree.root || (p in c.s.hashed && p in c.s.inode && c.s.inode[p] != 0)
  }

  /** The entry leaves the name space: an own one loses its pin, and is gone if nobody uses it; a
      mirror keeps it. */
  ghost predicate Leaves(c: Cache, c': Cache, d: Ref) {
    && !c'.s.Live(d) && (d in c'.pinned <==> c.Mirror(d)) && OthersKept(c, c', d)
    && c'.foreign == c.foreign && c'.s.dirs == c.s.dirs
    && (c.Mirror(d) || (d in c.refs && c.refs[d] > 0) ==> d in c'.s.tree.kids)
    && (!c.Mirror(d) && !InUse(c, d) ==> d !in c'.s.tree.kids)
  }

  lemma LeftLeaves(c: Cache, d: Ref, c': Cache)
    requires Good(c) && d in c.s.tree.parent && d in c.pinned && Settled(Left(c, d), c')
    ensures Leaves(c, c', d)
  {
    hide Good, Settled, Tree.Valid, OthersKept, EntryKept;
    var e := Left(c, d);
    GoodFacts(c);
    SettledRoot(e, c');
    AllAside(c, e, c', d);
    if d in c'.s.tree.kids {
      SettledHeld(e, c', d);
      LiveAfter(e, c', d);
    } else {
      DeadAfter(c', d);
    }
    if c.Mirror(d) || c.refs[d] > 0 { SettledStays(e, c', d); }
  }

  lemma LiveAfter(e: Cache, c: Cache, d: Ref)
    requires Settled(e, c) && d in c.s.tree.kids
    ensures c.s.Live(d) <==> e.s.Live(d)
    ensures d in c.s.inode && d in e.s.inode && c.s.inode[d] == e.s.inode[d]
    ensures d in c.s.name && d in e.s.name && c.s.name[d] == e.s.name[d]
  {
    hide Good;
  }

  lemma DeadAfter(c: Cache, d: Ref)
    requires Good(c) && d !in c.s.tree.kids
    ensures !c.s.Live(d)
  {
    hide Tree.Valid, Due, Sane;
    GoodFacts(c);
  }

  /** unlink(2) gets through exactly for a file in its place, and takes it out of the name space. */
  lemma UnlinkDoes(c: Cache, d: Ref, addr: Ref, c': Cache)
    requires Good(c) && Did(c, UnlinkOp(d), addr, c') && d in c.pinned
    ensures if InPlace(c, d) && !c.s.IsDir(d) then Leaves(c, c', d) && (!c.Mirror(d) && d in c.refs && c.refs[d] == 0 ==> d !in c'.s.tree.kids)
            else Unchanged(c, c')
  {
    hide Good, Settled, Left, Leaves, Unchanged, Tree.Valid;
    GoodFacts(c);
    if InPlace(c, d) && !c.s.IsDir(d) {
      LeftLeaves(c, d, c');
      FileChildless(c, d);
      IdleGone(c, c', d);
    } else {
      NothingDone(c, c');
    }
  }

  lemma IdleGone(c: Cache, c': Cache, d: Ref)
    requires Leaves(c, c', d) && d in c.s.tree.kids && c.s.tree.kids[d] == []
    ensures !c.Mirror(d) && d in c.refs && c.refs[d] == 0 ==> d !in c'.s.tree.kids
  {
  }

  /** rmdir(2) gets through exactly for a directory in its place that is a mirror or has no live
      child, and takes it out of the name space. */
  lemma RmdirDoes(c: Cache, d: Ref, addr: Ref, c': Cache)
    requires Good(c) && Did(c, RmdirOp(d), addr, c') && d in c.pinned
    ensures if InPlace(c, d) && c.s.IsDir(d) && (c.Mirror(d) || forall x :: x in c.s.tree.parent && c.s.tree.parent[x] == d ==> !c.s.Live(x))
            then Leaves(c, c', d) else Unchanged(c, c')
  {
    hide Good, Settled, Left, Leaves, Unchanged, Tree.Valid;
    GoodFacts(c);
    if d in c.s.tree.kids { EmptyIff(c, d); }
    if Enabled(c, RmdirOp(d), addr) { LeftLeaves(c, d, c'); } else { NothingDone(c, c'); }
  }

  lemma EmptyIff(c: Cache, d: Ref)
    requires Good(c) && d in c.s.tree.kids
    ensures c.NoLiveChild(d) <==> forall x :: x in c.s.tree.parent && c.s.tree.parent[x] == d ==> !c.s.Live(x)
  {
    hide Tree.Valid, Due, Sane;
    GoodFacts(c);
    if c.NoLiveChild(d) {
      forall x | x in c.s.tree.parent && c.s.tree.parent[x] == d ensures !c.s.Live(x) { ParentFacts(c.s.tree, x); }
    } else {
      var x :| x in c.s.tree.kids[d] && c.s.Live(x);
      var i :| 0 <= i < |c.s.tree.kids[d]| && c.s.tree.kids[d][i] == x;
      ChildFacts(c.s.tree, d, i);
    }
  }

  /** The mapping table forgets a mirror, which loses its pin: it is gone if nobody uses it, and
      otherwise stays as it is. */
  ghost predicate LetsGo(c: Cache, c': Cache, d: Ref)
    requires d in c.s.inode
  {
    && c'.foreign == c.foreign - {c.s.inode[d]} && d !in c'.pinned && OthersKept(c, c', d) && c'.s.dirs == c.s.dirs
    && (d in c.refs && c.refs[d] > 0 ==> d in c'.s.tree.kids)
    && (!InUse(c, d) ==> d !in c'.s.tree.kids)
    && (d in c'.s.tree.kids ==> SameAt(c, c', d))
  }

  /** The mapping table forgets a mirror, which keeps its pin, and every entry stays as it is. */
  ghost predicate Forgets(c: Cache, c': Cache, d: Ref)
    requires d in c.s.inode
  {
    c'.foreign == c.foreign - {c.s.inode[d]} && Unchanged(c.(foreign := c'.foreign), c')
  }

  predicate MirrorHere(c: Cache, d: Ref) { d in c.s.tree.parent && d in c.s.inode && c.s.inode[d] in c.foreign }

  lemma DropLetsGo(c: Cache, d: Ref, c': Cache)
    requires Good(c) && MirrorHere(c, d) && Settled(c.(pinned := c.pinned - {d}, foreign := c.foreign - {c.s.inode[d]}), c')
    ensures LetsGo(c, c', d)
  {
    hide Good, Settled, Tree.Valid, OthersKept, EntryKept, SameAt;
    var e := c.(pinned := c.pinned - {d}, foreign := c.foreign - {c.s.inode[d]});
    GoodFacts(c);
    SettledRoot(e, c');
    forall x | x != d ensures Aside(c, e, x) { SelfSame(c, x); }
    AllAside(c, e, c', d);
    if d in c'.s.tree.kids {
      SettledHeld(e, c', d);
      SettledSame(c, e, c', d);
    }
    if c.refs[d] > 0 { SettledStays(e, c', d); }
  }

  lemma SelfSame(c: Cache, x: Ref)
    requires Good(c)
    ensures x in c.s.tree.kids ==> forall e: Cache :: e.s == c.s && e.refs == c.refs ==> SameAt(c, e, x)
  {
    hide Tree.Valid, Due, Sane;
    GoodFacts(c);
  }

  lemma SettledSame(c: Cache, e: Cache, c': Cache, x: Ref)
    requires Good(c) && Settled(e, c') && e.s == c.s && e.refs == c.refs && x in c'.s.tree.kids
    ensures SameAt(c, c', x)
  {
    hide Tree.Valid, Due, Sane;
    GoodFacts(c);
    GoodFacts(c');
  }

  /** The peer's unlink gets through exactly for a mirror. */
  lemma RemoteUnlinkDoes(c: Cache, d: Ref, addr: Ref, c': Cache)
    requires Good(c) && Did(c, RemoteUnlinkOp(d), addr, c')
    ensures if MirrorHere(c, d) then LetsGo(c, c', d) else Unchanged(c, c')
  {
    hide Good, Settled, LetsGo, Unchanged, Tree.Valid;
    GoodFacts(c);
    if MirrorHere(c, d) { DropLetsGo(c, d, c'); } else { NothingDone(c, c'); }
  }

  /** So does the peer's rmdir, which lets go of the mirror exactly if it has no live child. */
  lemma RemoteRmdirDoes(c: Cache, d: Ref, addr: Ref, c': Cache)
    requires Good(c) && Did(c, RemoteRmdirOp(d), addr, c')
    ensures if !MirrorHere(c, d) then Unchanged(c, c')
            else if forall x :: x in c.s.tree.parent && c.s.tree.parent[x] == d ==> !c.s.Live(x) then LetsGo(c, c', d)
            else Forgets(c, c', d)
  {
    hide Good, Settled, LetsGo, Unchanged, Tree.Valid;
    GoodFacts(c);
    if MirrorHere(c, d) {
      EmptyIff(c, d);
      if c.NoLiveChild(d) {
        DropLetsGo(c, d, c');
      } else {
        var e := c.(foreign := c.foreign - {c.s.inode[d]});
        ForgetGood(c, c.s.inode[d]);
        NothingDone(e, c');
        SettledRoot(e, c');
      }
    } else {
      NothingDone(c, c');
    }
  }

  lemma ForgetGood(c: Cache, ino: nat)
    requires Good(c)
    ensures Good(c.(foreign := c.foreign - {ino}))
  {
    hide Tree.Valid, Due, Sane;
    SaneForget(c.s, c.pinned, c.foreign, ino);
  }

  // ---------------------------------------------------------------- creating

  /** There is a new live and pinned child of that name, inode and kind: it was not there before, or
      was a negative entry. */
  ghost predicate Appears(c: Cache, c': Cache, x: Ref, dir: Ref, nm: string, ino: nat, isDir: bool, addr: Ref) {
    && x in c'.s.tree.parent && c'.s.tree.parent[x] == dir && x in c'.s.name && c'.s.name[x] == nm
    && x in c'.s.hashed && x in c'.s.inode && c'.s.inode[x] == ino != 0 && (ino in c'.s.dirs <==> isDir)
    && x in c'.pinned && x !in c.pinned && !c.s.Live(x) && OthersKept(c, c', x)
    && c'.s.dirs == (if isDir then c.s.dirs + {ino} else c.s.dirs)
    && (x in c.s.tree.kids || x == addr) && x in c'.refs && c'.refs[x] == if x in c.refs then c.refs[x] else 0
  }

  /** What an entered entry is, before anything is freed. */
  lemma EnteredIs(c: Cache, dir: Ref, nm: string, ino: nat, isDir: bool, addr: Ref) returns (x: Ref)
    requires Good(c) && dir in c.s.tree.kids && dir in c.s.tree.depth && dir in c.s.count && addr !in c.s.tree.kids
    requires ino != 0 && ino !in c.s.dirs && !NameTaken(c.s, dir, nm)
    ensures var e := Entered(c, dir, nm, ino, isDir, addr);
            && x in e.s.tree.parent && e.s.tree.parent[x] == dir && x in e.s.name && e.s.name[x] == nm && e.s.Live(x)
            && x in e.s.inode && e.s.inode[x] == ino && e.pinned == c.pinned + {x} && x !in c.pinned && !c.s.Live(x)
            && e.s.dirs == (if isDir then c.s.dirs + {ino} else c.s.dirs) && e.foreign == c.foreign
            && e.s.tree.root == c.s.tree.root && x in e.s.tree.kids && x != c.s.tree.root
            && (x in c.s.tree.kids || x == addr) && x in e.refs && e.refs[x] == if x in c.refs then c.refs[x] else 0
  {
    hide Tree.Valid, Due, Good;
    GoodFacts(c);
    TakenIff(c, dir, nm);
    match Child(c.s, dir, nm)
    case ThisRef(d) =>
      x := d;
      FindsFacts(c.s, dir, nm, d);
      NotPinned(c, d);
    case NoRef =>
      x := addr;
  }

  lemma NotPinned(c: Cache, d: Ref)
    requires Good(c) && d in c.s.hashed && !c.s.Live(d) && d != c.s.tree.root
    ensures d !in c.pinned
  {
    hide Tree.Valid, Due;
    GoodFacts(c);
  }

  lemma EnteredAside(c: Cache, dir: Ref, nm: string, ino: nat, isDir: bool, addr: Ref, x: Ref, y: Ref)
    requires Good(c) && dir in c.s.tree.kids && dir in c.s.tree.depth && dir in c.s.count && addr !in c.s.tree.kids
    requires Entered(c, dir, nm, ino, isDir, addr).pinned == c.pinned + {x} && x !in c.pinned && y != x
    ensures Aside(c, Entered(c, dir, nm, ino, isDir, addr), y)
  {
    hide Tree.Valid, Due, Good;
    GoodFacts(c);
    match Child(c.s, dir, nm)
    case ThisRef(d) =>
      FindsFacts(c.s, dir, nm, d);
    case NoRef =>
  }

  lemma EnteredAppears(c: Cache, dir: Ref, nm: string, ino: nat, isDir: bool, addr: Ref, e: Cache, c': Cache)
    requires Good(c) && dir in c.s.tree.kids && dir in c.s.tree.depth && dir in c.s.count && addr !in c.s.tree.kids
    requires ino != 0 && ino !in c.s.dirs && !NameTaken(c.s, dir, nm)
    requires e == Entered(c, dir, nm, ino, isDir, addr).(foreign := e.foreign) && Settled(e, c')
    ensures exists x :: Appears(c, c', x, dir, nm, ino, isDir, addr)
  {
    hide Good, Settled, Entered, Tree.Valid, OthersKept, EntryKept, Aside;
    var x := EnteredIs(c, dir, nm, ino, isDir, addr);
    forall y | y != x ensures Aside(c, e, y) {
      EnteredAside(c, dir, nm, ino, isDir, addr, x, y);
      AsideAlike(c, Entered(c, dir, nm, ino, isDir, addr), e, y);
    }
    AllAside(c, e, c', x);
    SettledStays(e, c', x);
    SettledFacts(e, c', x);
    LiveAfter(e, c', x);
    SettledRoot(e, c');
    RefsAfter(e, c', x);
    assert Appears(c, c', x, dir, nm, ino, isDir, addr);
  }

  lemma AsideAlike(c: Cache, a: Cache, b: Cache, y: Ref)
    requires Aside(c, a, y) && b == a.(foreign := b.foreign)
    ensures Aside(c, b, y)
  {
  }

  /** The inode number is not in use. */
  predicate NewNumber(c: Cache, ino: nat) {
    ino != 0 && ino !in c.foreign && ino !in c.s.dirs && forall d :: d in c.s.inode ==> c.s.inode[d] != ino
  }

  /** A directory of the name space. */
  predicate OpenDir(c: Cache, dir: Ref) {
    dir in c.s.inode && c.s.inode[dir] in c.s.dirs && (dir == c.s.tree.root || (dir in c.s.hashed && c.s.inode[dir] != 0))
  }

  /** create and mkdir get through exactly in a directory of the name space without such an entry. */
  lemma CreateDoes(c: Cache, dir: Ref, nm: string, ino: nat, isDir: bool, addr: Ref, c': Cache)
    requires Good(c) && Did(c, CreateOp(dir, nm, ino, isDir), addr, c') && NewNumber(c, ino) && addr !in c.s.tree.kids
    ensures if OpenDir(c, dir) && !NameTaken(c.s, dir, nm)
            then c'.foreign == c.foreign && exists x :: Appears(c, c', x, dir, nm, ino, isDir, addr) else Unchanged(c, c')
  {
    hide Good, Settled, Entered, Unchanged, Appears, Tree.Valid, NameTaken;
    GoodFacts(c);
    if !OpenDir(c, dir) {
      NothingDone(c, c');
    } else if NameTaken(c.s, dir, nm) {
      TakenSame(c, dir, nm, ino, isDir, addr);
      NothingDone(c, c');
    } else {
      var e := Entered(c, dir, nm, ino, isDir, addr);
      EnteredAppears(c, dir, nm, ino, isDir, addr, e, c');
      SettledRoot(e, c');
      EnteredForeign(c, dir, nm, ino, isDir, addr);
    }
  }

  lemma EnteredForeign(c: Cache, dir: Ref, nm: string, ino: nat, isDir: bool, addr: Ref)
    requires dir in c.s.tree.kids && dir in c.s.tree.depth && dir in c.s.count
    ensures Entered(c, dir, nm, ino, isDir, addr).foreign == c.foreign
  {
  }

  lemma TakenSame(c: Cache, dir: Ref, nm: string, ino: nat, isDir: bool, addr: Ref)
    requires Good(c) && dir in c.s.tree.kids && dir in c.s.tree.depth && dir in c.s.count && NameTaken(c.s, dir, nm)
    ensures Entered(c, dir, nm, ino, isDir, addr) == c
  {
    hide Good;
    TakenIff(c, dir, nm);
  }

  /** link(2) gets through exactly for a file of the name space, into a directory of the name space
      without such an entry. */
  lemma LinkDoes(c: Cache, target: Ref, dir: Ref, nm: string, addr: Ref, c': Cache)
    requires Good(c) && Did(c, LinkOp(target, dir, nm), addr, c') && addr !in c.s.tree.kids
    ensures if c.s.Live(target) && c.s.inode[target] !in c.s.dirs && OpenDir(c, dir) && !NameTaken(c.s, dir, nm)
            then c'.foreign == c.foreign && exists x :: Appears(c, c', x, dir, nm, c.s.inode[target], false, addr) else Unchanged(c, c')
  {
    hide Good, Settled, Entered, Unchanged, Appears, Tree.Valid, NameTaken;
    GoodFacts(c);
    if !(c.s.Live(target) && c.s.inode[target] !in c.s.dirs && OpenDir(c, dir)) {
      NothingDone(c, c');
    } else if NameTaken(c.s, dir, nm) {
      TakenSame(c, dir, nm, c.s.inode[target], false, addr);
      NothingDone(c, c');
    } else {
      var e := Entered(c, dir, nm, c.s.inode[target], false, addr);
      EnteredAppears(c, dir, nm, c.s.inode[target], false, addr, e, c');
      SettledRoot(e, c');
      EnteredForeign(c, dir, nm, c.s.inode[target], false, addr);
    }
  }

  /** The peer's creation below an entry that the search finds stops the kernel exactly if the name is
      no path component, the parent no directory, a live child has the name, or the parent is out of
      the name space and no hashed child has the name; otherwise it makes a mirror. */
  lemma RemoteCreateDoes(c: Cache, dir: Ref, nm: string, ino: nat, isDir: bool, addr: Ref, c': Cache)
    requires Good(c) && NewNumber(c, ino) && addr !in c.s.tree.kids && dir in c.s.inode && c.s.inode[dir] != 0
    ensures Breaks(c, RemoteCreateOp(dir, nm, ino, isDir), addr) <==>
            || nm == "" || '/' in nm || c.s.inode[dir] !in c.s.dirs || (exists x :: c.s.Finds(dir, nm, x) && c.s.Live(x))
            || (!OpenDir(c, dir) && forall x :: !c.s.Finds(dir, nm, x))
    ensures Did(c, RemoteCreateOp(dir, nm, ino, isDir), addr, c') && !Breaks(c, RemoteCreateOp(dir, nm, ino, isDir), addr) ==>
            c'.foreign == c.foreign + {ino} && exists x :: Appears(c, c', x, dir, nm, ino, isDir, addr)
  {
    hide Good, Settled, Entered, Appears, Tree.Valid;
    GoodFacts(c);
    var op := RemoteCreateOp(dir, nm, ino, isDir);
    assert Enabled(c, op, addr);
    if Did(c, op, addr, c') && !Breaks(c, op, addr) {
      var e := Entered(c, dir, nm, ino, isDir, addr).(foreign := c.foreign + {ino});
      EnteredAppears(c, dir, nm, ino, isDir, addr, e, c');
      SettledRoot(e, c');
    }
  }

  // ---------------------------------------------------------------- holding

  /** Opening an entry adds a user, and changes nothing else. */
  lemma OpenDoes(c: Cache, d: Ref, addr: Ref, c': Cache)
    requires Good(c) && Did(c, OpenOp(d), addr, c') && d in c.s.tree.kids
    ensures d in c.refs && Unchanged(c.(s := c.s.(count := c'.s.count), refs := c.refs[d := c.refs[d] + 1]), c')
  {
    hide Good, Settled, Tree.Valid;
    GoodFacts(c);
    var e := c.(refs := c.refs[d := c.refs[d] + 1]);
    SettledRoot(e, c');
    StillThere(c, e, d, c');
  }

  lemma StillThere(c: Cache, e: Cache, d: Ref, c': Cache)
    requires Good(c) && Settled(e, c') && d in c.s.tree.kids && d in c.refs && e == c.(refs := c.refs[d := c.refs[d] + 1])
    ensures c'.s.tree.kids.Keys == c.s.tree.kids.Keys && c'.s.tree.parent == c.s.tree.parent && c'.refs == e.refs
    ensures c'.s.inode == c.s.inode && c'.s.hashed == c.s.hashed && c'.s.name == c.s.name
  {
    hide Tree.Valid, Sane, Due;
    GoodFacts(c);
    GoodFacts(c');
    forall x | x in c.s.tree.kids ensures x in c'.s.tree.kids { NothingFreed(c, e, d, c', x); }
  }

  lemma {:induction false} NothingFreed(c: Cache, e: Cache, d: Ref, c': Cache, x: Ref)
    requires Good(c) && Settled(e, c') && d in c.s.tree.kids && d in c.refs && e == c.(refs := c.refs[d := c.refs[d] + 1]) && x in c.s.tree.kids
    ensures x in c'.s.tree.kids
    decreases if x in c.s.tree.depth then c.s.tree.bound - c.s.tree.depth[x] else 0
  {
    hide Tree.Valid, Sane;
    GoodFacts(c);
    GoodFacts(c');
    DueFacts(c.s.tree, c.s.count, c.pinned, c.refs, {});
    if x !in c'.s.tree.kids {
      ChildFacts(c.s.tree, x, 0);
      var y := c.s.tree.kids[x][0];
      NothingFreed(c, e, d, c', y);
      RootFacts(c'.s.tree);
      ParentFacts(c'.s.tree, y);
    }
  }

  /** Closing takes a user away; the entry stays in the name space as it was, or is gone if nobody
      holds it. */
  lemma CloseDoes(c: Cache, d: Ref, addr: Ref, c': Cache)
    requires Good(c) && Did(c, CloseOp(d), addr, c') && d in c.refs && c.refs[d] > 0
    ensures OthersKept(c, c', d) && c'.foreign == c.foreign && (d in c'.pinned <==> d in c.pinned)
    ensures d in c.pinned || c.refs[d] > 1 ==> d in c'.s.tree.kids
    ensures d in c'.s.tree.kids ==> d in c'.refs && c'.refs[d] == c.refs[d] - 1 && (c'.s.Live(d) <==> c.s.Live(d))
    ensures c.refs[d] == 1 && d !in c.pinned && c.s.tree.kids[d] == [] ==> d !in c'.s.tree.kids
  {
    hide Good, Settled, Tree.Valid, OthersKept, EntryKept;
    GoodFacts(c);
    var e := c.(refs := c.refs[d := c.refs[d] - 1]);
    SettledRoot(e, c');
    AllAside(c, e, c', d);
    if d in e.pinned || e.refs[d] > 0 { SettledStays(e, c', d); }
    if d in c'.s.tree.kids {
      SettledHeld(e, c', d);
      LiveAfter(e, c', d);
      RefsAfter(e, c', d);
    }
  }

  lemma RefsAfter(e: Cache, c: Cache, d: Ref)
    requires Settled(e, c) && d in c.s.tree.kids
    ensures d in c.refs && d in e.refs && c.refs[d] == e.refs[d]
  {
    hide Good;
  }

  /** A lookup adds a user to the hashed child of that name, or to a new negative child; in a directory
      out of the name space without such a child it changes nothing. */
  lemma LookupDoes(c: Cache, dir: Ref, nm: string, addr: Ref, c': Cache)
    requires Good(c) && Did(c, LookupOp(dir, nm), addr, c') && addr !in c.s.tree.kids && dir in c.s.inode && c.s.inode[dir] in c.s.dirs
    ensures c'.foreign == c.foreign && c'.pinned == c.pinned
    ensures (exists d :: c.s.Finds(dir, nm, d)) ==>
              exists d :: c.s.Finds(dir, nm, d) && d in c.refs && d in c'.refs && c'.refs[d] == c.refs[d] + 1 && OthersKept(c, c', d)
    ensures (forall d :: !c.s.Finds(dir, nm, d)) && !OpenDir(c, dir) ==> Unchanged(c, c')
    ensures (forall d :: !c.s.Finds(dir, nm, d)) && OpenDir(c, dir) ==>
              && addr in c'.s.tree.parent && c'.s.tree.parent[addr] == dir && addr in c'.s.inode && c'.s.inode[addr] == 0
              && c'.s.Finds(dir, nm, addr) && addr in c'.refs && c'.refs[addr] == 1 && OthersKept(c, c', addr)
  {
    hide Good, Settled, Tree.Valid, OthersKept, EntryKept, Unchanged, LookedUp;
    GoodFacts(c);
    LookedForeign(c, dir, nm, addr);
    var e := LookedUp(c, dir, nm, addr);
    SettledRoot(e, c');
    if d :| c.s.Finds(dir, nm, d) {
      LookedFound(c, dir, nm, addr, c');
    } else if !OpenDir(c, dir) {
      LookedDead(c, dir, nm, addr);
      NothingDone(c, c');
    } else {
      LookedNew(c, dir, nm, addr, c');
    }
  }

  lemma LookedForeign(c: Cache, dir: Ref, nm: string, addr: Ref)
    requires c.s.Wired() && c.refs.Keys == c.s.tree.kids.Keys && dir in c.s.tree.kids && dir in c.s.tree.depth && dir in c.s.count
    ensures LookedUp(c, dir, nm, addr).foreign == c.foreign && LookedUp(c, dir, nm, addr).pinned == c.pinned
  {
    hide Tree.Valid;
  }

  lemma LookedDead(c: Cache, dir: Ref, nm: string, addr: Ref)
    requires c.s.Wired() && c.refs.Keys == c.s.tree.kids.Keys && dir in c.s.tree.kids && dir in c.s.tree.depth && dir in c.s.count
    requires (forall d :: !c.s.Finds(dir, nm, d)) && c.Dead(dir)
    ensures LookedUp(c, dir, nm, addr) == c
  {
    hide Tree.Valid;
  }

  lemma LookedFound(c: Cache, dir: Ref, nm: string, addr: Ref, c': Cache)
    requires Good(c) && c.s.Wired() && c.refs.Keys == c.s.tree.kids.Keys && dir in c.s.tree.kids && dir in c.s.tree.depth && dir in c.s.count
    requires Settled(LookedUp(c, dir, nm, addr), c') && exists d :: c.s.Finds(dir, nm, d)
    ensures exists d :: c.s.Finds(dir, nm, d) && d in c.refs && d in c'.refs && c'.refs[d] == c.refs[d] + 1 && OthersKept(c, c', d)
  {
    hide Good, Settled, Tree.Valid, OthersKept, EntryKept;
    GoodFacts(c);
    var d := Child(c.s, dir, nm).ref;
    FindsFacts(c.s, dir, nm, d);
    var e := c.(refs := c.refs[d := c.refs[d] + 1]);
    AllAside(c, e, c', d);
    SettledStays(e, c', d);
    assert c.s.Finds(dir, nm, d);
  }

  lemma LookedNew(c: Cache, dir: Ref, nm: string, addr: Ref, c': Cache)
    requires Good(c) && c.s.Wired() && c.refs.Keys == c.s.tree.kids.Keys && dir in c.s.tree.kids && dir in c.s.tree.depth && dir in c.s.count
    requires Settled(LookedUp(c, dir, nm, addr), c') && (forall d :: !c.s.Finds(dir, nm, d)) && !c.Dead(dir) && addr !in c.s.tree.kids
    ensures addr in c'.s.tree.parent && c'.s.tree.parent[addr] == dir && addr in c'.s.inode && c'.s.inode[addr] == 0
    ensures c'.s.Finds(dir, nm, addr) && addr in c'.refs && c'.refs[addr] == 1 && OthersKept(c, c', addr)
  {
    hide Good, Settled, Tree.Valid, OthersKept, EntryKept;
    GoodFacts(c);
    var e := c.(s := c.s.Add(dir, nm, addr), refs := c.refs[addr := 1]);
    AllAside(c, e, c', addr);
    SettledStays(e, c', addr);
    SettledFacts(e, c', addr);
    LiveAfter(e, c', addr);
    HashedAfter(e, c', addr);
    GoodFacts(c');
    NamedFound(c'.s, addr);
  }

  lemma HashedAfter(e: Cache, c: Cache, d: Ref)
    requires Settled(e, c) && d in c.s.tree.kids
    ensures Good(c) && (d in c.s.hashed <==> d in e.s.hashed)
  {
    hide Good;
  }
}
