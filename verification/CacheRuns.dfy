/**
 Runs of the dentry cache: what each operation does to the entries, before and apart from freeing
 those that nobody holds any more, and when unmounting after a run stops the kernel.
 */
module CacheRuns {
  import opened Trees
  import opened RefCounts
  import opened Stores

  /** The dentry cache with what it does not record itself: the `pinned` entries, whose creation
      took a reference that their removal gives back; the references callers hold, for lookups
      and open files; and the inode numbers in the mapping table. */
  datatype Cache = Cache(s: Store, pinned: set<Ref>, refs: map<Ref, nat>, foreign: set<nat>) {

    predicate Positive(d: Ref) { d in s.inode && s.inode[d] != 0 }

    /** is_my_file says no. */
    predicate Mirror(d: Ref) { d in s.inode && s.inode[d] in foreign }

    /** A directory that is out of the name space: rmdir has marked it dead and left it unhashed. */
    predicate Dead(dir: Ref) { dir != s.tree.root && !s.Live(dir) }

    /** A new inode number. */
    predicate Unused(ino: nat) {
      ino != 0 && ino !in foreign && ino !in s.dirs && forall d :: d in s.inode ==> s.inode[d] != ino
    }

    /** simple_empty. */
    predicate NoLiveChild(d: Ref) {
      d in s.tree.kids && forall c :: c in s.tree.kids[d] ==> !s.Live(c)
    }
  }

  ghost predicate Good(c: Cache) {
    c.s.Wired() && Due(c.s.tree, c.s.count, c.pinned, c.refs, {}) && Sane(c.s, c.pinned, c.foreign)
  }

  /** A freshly mounted file system. */
  function Mounted(root: Ref, ino: nat): Cache {
    Cache(Store(Tree(root, map[root := []], map[], map[root := 0], 0), map[root := 1], map[root := ino], {}, map[root := "/"], {ino}),
          {root}, map[root := 0], {})
  }

  datatype Op =
    | CreateOp(dir: Ref, nm: string, ino: nat, isDir: bool)
    | RemoteCreateOp(dir: Ref, nm: string, ino: nat, isDir: bool)
    | LinkOp(target: Ref, dir: Ref, nm: string)
    | UnlinkOp(d: Ref)
    | RmdirOp(d: Ref)
    | RemoteUnlinkOp(d: Ref)
    | RemoteRmdirOp(d: Ref)
    | LookupOp(dir: Ref, nm: string)
    | OpenOp(d: Ref)
    | CloseOp(d: Ref)

  // ---------------------------------------------------------------- what an operation does

  /** The operation gets as far as the file system: the kernel's own checks and, for the peer's
      operations, the searches of the server let it through.  `addr` is where a new dentry goes.
      The server's searches also find entries that are unhashed. */
  predicate Enabled(c: Cache, op: Op, addr: Ref) {
    match op
    case CreateOp(dir, _, ino, _) => addr !in c.s.tree.kids && c.Unused(ino) && c.s.IsDir(dir) && !c.Dead(dir)
    case RemoteCreateOp(dir, _, ino, _) => addr !in c.s.tree.kids && c.Unused(ino) && c.Positive(dir)
    case LinkOp(target, dir, _) =>
      addr !in c.s.tree.kids && c.s.Live(target) && !c.s.IsDir(target) && c.s.IsDir(dir) && !c.Dead(dir)
    case UnlinkOp(d) => d in c.s.tree.parent && !c.Dead(c.s.tree.parent[d]) && c.s.Live(d) && !c.s.IsDir(d)
    case RmdirOp(d) =>
      && d in c.s.tree.parent && !c.Dead(c.s.tree.parent[d]) && c.s.Live(d) && c.s.IsDir(d)
      && (c.Mirror(d) || c.NoLiveChild(d))
    case RemoteUnlinkOp(d) => d in c.s.tree.kids && d != c.s.tree.root && c.Mirror(d)
    case RemoteRmdirOp(d) => d in c.s.tree.kids && d != c.s.tree.root && c.Mirror(d)
    case LookupOp(dir, _) => addr !in c.s.tree.kids && c.s.IsDir(dir)
    case OpenOp(d) => d in c.s.tree.kids && d in c.refs
    case CloseOp(d) => d in c.refs && c.refs[d] > 0
  }

  datatype MaybeRef = NoRef | ThisRef(ref: Ref)

  /** The hashed child of that name. */
  ghost function Child(s: Store, dir: Ref, nm: string): (r: MaybeRef)
    ensures r.ThisRef? ==> s.Finds(dir, nm, r.ref)
    ensures r.NoRef? ==> forall d :: !s.Finds(dir, nm, d)
  {
    if exists d :: s.Finds(dir, nm, d) then (var d :| s.Finds(dir, nm, d); ThisRef(d)) else NoRef
  }

  ghost predicate NameTaken(s: Store, dir: Ref, nm: string) {
    exists d :: s.Finds(dir, nm, d) && s.Live(d)
  }

  lemma TakenIff(c: Cache, dir: Ref, nm: string)
    requires Good(c)
    ensures NameTaken(c.s, dir, nm) <==> Child(c.s, dir, nm).ThisRef? && c.s.Live(Child(c.s, dir, nm).ref)
  {
    hide Tree.Valid, Due, Sane;
    if d :| c.s.Finds(dir, nm, d) && c.s.Live(d) {
      FoundOnce(c.s, c.pinned, c.foreign, dir, nm, d, Child(c.s, dir, nm).ref);
    }
  }

  /** Creating `nm` below `dir` with inode `ino`: a taken name changes nothing, a negative entry of
      that name becomes live and pinned, and otherwise there is a new such entry. */
  ghost function Entered(c: Cache, dir: Ref, nm: string, ino: nat, isDir: bool, addr: Ref): Cache
    requires dir in c.s.tree.kids && dir in c.s.tree.depth && dir in c.s.count
  {
    match Child(c.s, dir, nm)
    case ThisRef(d) =>
      if c.s.Live(d) then c
      else c.(s := c.s.Born(d, ino, isDir), pinned := c.pinned + {d})
    case NoRef =>
      c.(s := c.s.Add(dir, nm, addr).Born(addr, ino, isDir), pinned := c.pinned + {addr}, refs := c.refs[addr := 0])
  }

  /** A caller takes a reference on the hashed child of that name or on a new negative entry, which a
      dead directory does not get. */
  ghost function LookedUp(c: Cache, dir: Ref, nm: string, addr: Ref): Cache
    requires c.s.Wired() && c.refs.Keys == c.s.tree.kids.Keys && dir in c.s.tree.kids && dir in c.s.tree.depth && dir in c.s.count
  {
    match Child(c.s, dir, nm)
    case ThisRef(d) =>
      FindsFacts(c.s, dir, nm, d);
      c.(refs := c.refs[d := c.refs[d] + 1])
    case NoRef => if c.Dead(dir) then c else c.(s := c.s.Add(dir, nm, addr), refs := c.refs[addr := 1])
  }

  /** A new inode number appears on the new entry only. */
  lemma OnlyNew(c: Cache, dir: Ref, nm: string, ino: nat, isDir: bool, addr: Ref)
    requires Good(c) && dir in c.s.tree.kids && dir in c.s.tree.depth && dir in c.s.count && ino != 0
    requires forall x :: x in c.s.inode ==> c.s.inode[x] != ino
    ensures var e := Entered(c, dir, nm, ino, isDir, addr); forall x :: x in e.s.inode && e.s.inode[x] == ino ==> x in e.pinned
  {
  }

  lemma MirrorPinned(c: Cache, d: Ref)
    requires Good(c) && c.Mirror(d)
    ensures d in c.pinned
  {
  }

  /** wjfs_unlink and wjfs_rmdir drop the pin of an own entry and leave a mirror's alone; then
      d_delete unhashes either. */
  function Left(c: Cache, d: Ref): Cache {
    c.(s := c.s.(hashed := c.s.hashed - {d}), pinned := if c.Mirror(d) then c.pinned else c.pinned - {d})
  }

  /** What the operation does, short of freeing entries. */
  ghost function Effect(c: Cache, op: Op, addr: Ref): Cache
    requires c.s.Wired() && c.refs.Keys == c.s.tree.kids.Keys
  {
    if !Enabled(c, op, addr) then c
    else
      WiredFacts(c.s);
      match op
      case CreateOp(dir, nm, ino, isDir) => Entered(c, dir, nm, ino, isDir, addr)
      case RemoteCreateOp(dir, nm, ino, isDir) => Entered(c, dir, nm, ino, isDir, addr).(foreign := c.foreign + {ino})
      case LinkOp(target, dir, nm) => Entered(c, dir, nm, c.s.inode[target], false, addr)
      case UnlinkOp(d) => Left(c, d)
      case RmdirOp(d) => Left(c, d)
      case RemoteUnlinkOp(d) => c.(pinned := c.pinned - {d}, foreign := c.foreign - {c.s.inode[d]})
      case RemoteRmdirOp(d) =>
        c.(pinned := if c.NoLiveChild(d) then c.pinned - {d} else c.pinned, foreign := c.foreign - {c.s.inode[d]})
      case LookupOp(dir, nm) => LookedUp(c, dir, nm, addr)
      case OpenOp(d) => c.(refs := c.refs[d := c.refs[d] + 1])
      case CloseOp(d) => c.(refs := c.refs[d := c.refs[d] - 1])
  }

  lemma WiredFacts(s: Store)
    requires s.Wired()
    ensures s.tree.root in s.tree.kids && s.tree.depth.Keys == s.tree.kids.Keys && s.count.Keys == s.tree.kids.Keys
    ensures s.inode.Keys == s.tree.kids.Keys && s.hashed <= s.tree.kids.Keys
  {
    hide Tree.Valid;
    RootFacts(s.tree);
  }

  /** `c` is `e` with the entries freed that nobody holds, and no other difference. */
  ghost predicate Settled(e: Cache, c: Cache) {
    && Kept(e.s, e.refs, c.s, c.refs, e.pinned) && c.pinned == e.pinned && c.foreign == e.foreign && Good(c)
  }

  lemma SettledSelf(e: Cache, c: Cache)
    requires Good(c) && e == c.(s := c.s.(count := e.s.count))
    ensures Settled(e, c)
  {
    hide Tree.Valid, Due, Sane, Kept;
    GoodFacts(c);
    KeptSelf(c.s, c.refs, c.pinned);
    KeptAnyCount(c.s, c.refs, c.s, c.refs, c.pinned, e.s.count);
  }

  /** The operation takes the cache from `c` to `c'`. */
  ghost predicate Did(c: Cache, op: Op, addr: Ref, c': Cache)
    requires Good(c)
  {
    GoodFacts(c);
    Settled(Effect(c, op, addr), c')
  }

  lemma GoodFacts(c: Cache)
    requires Good(c)
    ensures c.s.Wired() && c.refs.Keys == c.s.tree.kids.Keys && c.pinned <= c.s.tree.kids.Keys && c.s.tree.root in c.pinned
    ensures c.s.tree.root in c.s.tree.kids && c.s.tree.parent.Keys == c.s.tree.kids.Keys - {c.s.tree.root}
    ensures c.s.inode.Keys == c.s.tree.kids.Keys && c.s.count.Keys == c.s.tree.kids.Keys && c.s.hashed <= c.s.tree.kids.Keys
    ensures c.s.tree.depth.Keys == c.s.tree.kids.Keys
  {
    hide Tree.Valid, Due, Sane;
    DueFacts(c.s.tree, c.s.count, c.pinned, c.refs, {});
    WiredFacts(c.s);
  }

  /** __lookup_one_len refuses the name. */
  predicate BadName(nm: string) { nm == [] || '/' in nm }

  /** The lookup of wjfs_create_by_name gives an error pointer, which it follows: the name is no
      path component, the parent is a file, or it is a dead directory without such a child. */
  ghost predicate LookupFails(c: Cache, dir: Ref, nm: string) {
    BadName(nm) || !c.s.IsDir(dir) || (c.Dead(dir) && Child(c.s, dir, nm).NoRef?)
  }

  /** What the operation must not be: a creation for the peer whose lookup fails, or over a taken
      name, where d_instantiate stops the kernel; or the local removal of an own entry whose pin is
      gone, where wjfs_unlink gives back a reference that belongs to somebody else. */
  ghost predicate Breaks(c: Cache, op: Op, addr: Ref) {
    && Enabled(c, op, addr)
    && match op
       case RemoteCreateOp(dir, nm, _, _) => LookupFails(c, dir, nm) || NameTaken(c.s, dir, nm)
       case UnlinkOp(d) => !c.Mirror(d) && d !in c.pinned
       case RmdirOp(d) => !c.Mirror(d) && d !in c.pinned
       case _ => false
  }

  // ---------------------------------------------------------------- it determines the state

  /** What is in one settled state is in every other. */
  lemma {:induction false} StaysIn(e: Cache, a: Cache, b: Cache, x: Ref)
    requires Settled(e, a) && Settled(e, b) && x in a.s.tree.kids
    ensures x in b.s.tree.kids
    decreases if x in a.s.tree.depth then a.s.tree.bound - a.s.tree.depth[x] else 0
  {
    hide Tree.Valid, Sane;
    GoodFacts(a);
    GoodFacts(b);
    if x !in b.s.tree.kids {
      assert x !in e.pinned && e.refs[x] == 0;
      DueFacts(a.s.tree, a.s.count, a.pinned, a.refs, {});
      ChildFacts(a.s.tree, x, 0);
      var y := a.s.tree.kids[x][0];
      StaysIn(e, a, b, y);
      RootFacts(b.s.tree);
      ParentFacts(b.s.tree, y);
    }
  }

  ghost function Elements(s: seq<Ref>): set<Ref> { set x | x in s }

  lemma {:induction false} DistinctSize(s: seq<Ref>)
    requires forall i, j :: 0 <= i < j < |s| ==> s[i] != s[j]
    ensures |s| == |Elements(s)|
  {
    if s != [] {
      var r := s[..|s| - 1];
      DistinctSize(r);
      assert s == r + [s[|s| - 1]];
      assert Elements(s) == Elements(r) + {s[|s| - 1]};
    }
  }

  ghost function ChildrenOf(parent: map<Ref, Ref>, x: Ref): set<Ref> { set y | y in parent && parent[y] == x }

  /** As many children as entries with this parent. */
  lemma ChildCount(t: Tree<Ref>, x: Ref)
    requires t.Valid() && x in t.kids
    ensures |t.kids[x]| == |ChildrenOf(t.parent, x)|
  {
    DistinctSize(t.kids[x]);
    assert Elements(t.kids[x]) == ChildrenOf(t.parent, x);
  }

  lemma SameFields(e: Cache, a: Cache, b: Cache)
    requires Settled(e, a) && Settled(e, b) && a.s.tree.kids.Keys == b.s.tree.kids.Keys
    ensures a.s.tree.parent == b.s.tree.parent && a.s.inode == b.s.inode && a.s.hashed == b.s.hashed
    ensures a.s.name == b.s.name && a.s.dirs == b.s.dirs && a.refs == b.refs
  {
    hide Tree.Valid, Due, Sane;
    GoodFacts(a);
    GoodFacts(b);
  }

  lemma SameCounts(a: Cache, b: Cache)
    requires Good(a) && Good(b) && a.s.tree.kids.Keys == b.s.tree.kids.Keys && a.s.tree.parent == b.s.tree.parent
    requires a.refs == b.refs && a.pinned == b.pinned
    ensures a.s.count == b.s.count
  {
    hide Tree.Valid, Due, Sane, ChildrenOf;
    GoodFacts(a);
    GoodFacts(b);
    DueFacts(a.s.tree, a.s.count, a.pinned, a.refs, {});
    DueFacts(b.s.tree, b.s.count, b.pinned, b.refs, {});
    forall x | x in a.s.tree.kids ensures a.s.count[x] == b.s.count[x] {
      ChildCount(a.s.tree, x);
      ChildCount(b.s.tree, x);
    }
  }

  /** The effect and the freeing determine the new state, but for the order of lists. */
  lemma SettledOnce(e: Cache, a: Cache, b: Cache)
    requires Settled(e, a) && Settled(e, b)
    ensures a.s.tree.kids.Keys == b.s.tree.kids.Keys && a.s.tree.parent == b.s.tree.parent && a.s.count == b.s.count
    ensures a.s.inode == b.s.inode && a.s.hashed == b.s.hashed && a.s.name == b.s.name && a.s.dirs == b.s.dirs
    ensures a.pinned == b.pinned && a.refs == b.refs && a.foreign == b.foreign
  {
    hide Kept, Good;
    forall x | x in a.s.tree.kids ensures x in b.s.tree.kids { StaysIn(e, a, b, x); }
    forall x | x in b.s.tree.kids ensures x in a.s.tree.kids { StaysIn(e, b, a, x); }
    assert a.s.tree.kids.Keys == b.s.tree.kids.Keys;
    SameFields(e, a, b);
    SameCounts(a, b);
  }

  // ---------------------------------------------------------------- unmounting

  /** Nobody holds a reference: the kernel lets the file system be unmounted. */
  predicate Quiet(c: Cache) { forall d :: d in c.refs ==> c.refs[d] == 0 }

  /** A pinned entry is out of the name space. */
  ghost predicate Stranded(c: Cache, d: Ref) { d in c.pinned && d != c.s.tree.root && !c.s.Live(d) }

  /** A live entry hangs below an entry that has lost its pin. */
  ghost predicate Orphan(c: Cache, x: Ref) {
    x in c.s.tree.parent && c.s.Live(x) && c.s.tree.parent[x] != c.s.tree.root && c.s.tree.parent[x] !in c.pinned
  }

  ghost predicate Stuck(c: Cache) { exists d :: Stranded(c, d) || Orphan(c, d) }

  /** The unmount walk and the root decrement leave `x` with as many references as children. */
  ghost predicate Balanced(c: Cache, x: Ref)
    requires c.s.Wired() && x in c.s.tree.kids
  {
    c.s.count[x] == |c.s.tree.kids[x]| + if x == c.s.tree.root || Reach(c.s.tree, c.s.LiveSet(), x) then 1 else 0
  }

  lemma BalancedIff(c: Cache, x: Ref)
    requires Good(c) && Quiet(c) && x in c.s.tree.kids
    ensures Balanced(c, x) <==> (x == c.s.tree.root || (x in c.pinned <==> Reach(c.s.tree, c.s.LiveSet(), x)))
    ensures c.s.tree.kids[x] == [] ==> x in c.pinned
  {
    hide Tree.Valid, Sane, Reach;
    GoodFacts(c);
    DueFacts(c.s.tree, c.s.count, c.pinned, c.refs, {});
  }

  lemma ReachStep(c: Cache, x: Ref)
    requires c.s.Wired() && x in c.s.tree.parent
    ensures c.s.tree.parent[x] in c.s.tree.kids && x in c.s.tree.kids && x != c.s.tree.root
    ensures Reach(c.s.tree, c.s.LiveSet(), x) <==> c.s.Live(x) && Reach(c.s.tree, c.s.LiveSet(), c.s.tree.parent[x])
    ensures x in c.s.tree.depth && c.s.tree.parent[x] in c.s.tree.depth
    ensures c.s.tree.depth[x] == c.s.tree.depth[c.s.tree.parent[x]] + 1
  {
    ParentFacts(c.s.tree, x);
  }

  lemma NotStuckAt(c: Cache, x: Ref)
    requires !Stuck(c)
    ensures !Stranded(c, x) && !Orphan(c, x)
  {
  }

  /** In a quiet state that is not stuck every entry is pinned, ... */
  lemma {:induction false} AllPinned(c: Cache, x: Ref)
    requires Good(c) && Quiet(c) && !Stuck(c) && x in c.s.tree.kids && x != c.s.tree.root
    ensures x in c.pinned
    decreases if x in c.s.tree.depth then c.s.tree.bound - c.s.tree.depth[x] else 0
  {
    hide Tree.Valid, Due, Sane, Reach;
    GoodFacts(c);
    if x !in c.pinned {
      BalancedIff(c, x);
      ChildFacts(c.s.tree, x, 0);
      var y := c.s.tree.kids[x][0];
      NotStuckAt(c, y);
      AllPinned(c, y);
    }
  }

  /** ... hence live and reached by the walk. */
  lemma {:induction false} AllReached(c: Cache, x: Ref)
    requires Good(c) && Quiet(c) && !Stuck(c) && x in c.s.tree.kids
    ensures Reach(c.s.tree, c.s.LiveSet(), x)
    decreases if x in c.s.tree.depth then c.s.tree.depth[x] else 0
  {
    hide Tree.Valid, Due, Sane;
    GoodFacts(c);
    if x != c.s.tree.root {
      AllPinned(c, x);
      NotStuckAt(c, x);
      ReachStep(c, x);
      AllReached(c, c.s.tree.parent[x]);
    }
  }

  /** If every entry were balanced, all would be reached. */
  lemma {:induction false} BalancedReached(c: Cache, x: Ref)
    requires Good(c) && Quiet(c) && x in c.s.tree.kids
    requires forall y :: y in c.s.tree.kids ==> Balanced(c, y)
    ensures Reach(c.s.tree, c.s.LiveSet(), x)
    decreases if x in c.s.tree.depth then c.s.tree.bound - c.s.tree.depth[x] else 0
  {
    hide Tree.Valid, Due, Sane;
    GoodFacts(c);
    BalancedIff(c, x);
    if !Reach(c.s.tree, c.s.LiveSet(), x) {
      assert Balanced(c, x);
      ChildFacts(c.s.tree, x, 0);
      var y := c.s.tree.kids[x][0];
      BalancedReached(c, y);
      ReachStep(c, y);
    }
  }

  /** Over every quiet state: some entry is out of balance, and unmounting stops the kernel, exactly
      when a pinned entry is out of the name space or a live one hangs below an unpinned one. */
  lemma StuckIff(c: Cache)
    requires Good(c) && Quiet(c)
    ensures c.s.Wired() && (Stuck(c) <==> exists x :: x in c.s.tree.kids && !Balanced(c, x))
  {
    hide Tree.Valid, Due, Sane, Reach;
    GoodFacts(c);
    if !Stuck(c) {
      forall x | x in c.s.tree.kids ensures Balanced(c, x) {
        AllReached(c, x);
        if x != c.s.tree.root { AllPinned(c, x); }
        BalancedIff(c, x);
      }
    } else if forall x :: x in c.s.tree.kids ==> Balanced(c, x) {
      var d :| Stranded(c, d) || Orphan(c, d);
      BalancedReached(c, d);
      ReachStep(c, d);
      BalancedReached(c, c.s.tree.parent[d]);
      BalancedIff(c, d);
      BalancedIff(c, c.s.tree.parent[d]);
    }
  }

  // ---------------------------------------------------------------- runs that never get stuck

  /** The entry is pinned exactly if it is in the name space, and then hangs below the root or a
      pinned entry. */
  ghost predicate Tidy(c: Cache, d: Ref)
    requires d in c.s.tree.parent
  {
    && (d in c.pinned <==> c.s.Live(d))
    && (c.s.Live(d) ==> c.s.tree.parent[d] == c.s.tree.root || c.s.tree.parent[d] in c.pinned)
  }

  ghost predicate Clean(c: Cache) { forall d :: d in c.s.tree.parent ==> Tidy(c, d) }

  /** What spoils a clean state: for the peer, reviving a negative entry of a dead directory, or
      removing a mirror that somebody holds or that has children; locally, removing a mirror. */
  predicate Leaks(c: Cache, op: Op, addr: Ref) {
    && Enabled(c, op, addr)
    && match op
       case RemoteCreateOp(dir, nm, _, _) => Revives(c, dir, nm)
       case UnlinkOp(d) => c.Mirror(d)
       case RmdirOp(d) => c.Mirror(d)
       case RemoteUnlinkOp(d) => InUse(c, d)
       case RemoteRmdirOp(d) => c.NoLiveChild(d) && InUse(c, d)
       case _ => false
  }

  /** The lookup finds a negative entry, and the directory is dead. */
  predicate Revives(c: Cache, dir: Ref, nm: string) {
    c.Dead(dir) && dir in c.s.tree.kids && exists x :: x in c.s.tree.kids[dir] && c.s.Finds(dir, nm, x) && !c.s.Live(x)
  }

  predicate InUse(c: Cache, d: Ref) {
    (d in c.refs && c.refs[d] > 0) || (d in c.s.tree.kids && c.s.tree.kids[d] != [])
  }

  lemma CleanNotStuck(c: Cache)
    requires Good(c) && Clean(c)
    ensures !Stuck(c)
  {
    hide Tree.Valid, Due, Sane;
    GoodFacts(c);
    if d :| Stranded(c, d) || Orphan(c, d) { CleanAt(c, d); }
  }

  lemma CleanAt(c: Cache, d: Ref)
    requires Clean(c) && d in c.s.tree.parent
    ensures Tidy(c, d)
  {
  }

  /** Freeing does not touch the entries that stay. */
  lemma SettledFacts(e: Cache, c: Cache, d: Ref)
    requires Settled(e, c) && d in c.s.tree.parent
    ensures d in e.s.tree.parent && c.s.tree.parent[d] == e.s.tree.parent[d] && c.s.tree.root == e.s.tree.root
    ensures (Tidy(c, d) <==> Tidy(e, d)) && (c.s.Live(d) <==> e.s.Live(d)) && d in c.s.tree.kids && d in e.refs && c.refs[d] == e.refs[d]
  {
    hide Tree.Valid, Due, Sane;
    GoodFacts(c);
  }

  /** Entries somebody holds, and their parents, stay. */
  lemma SettledStays(e: Cache, c: Cache, d: Ref)
    requires Settled(e, c) && d in e.s.tree.kids && d in e.refs && (d in e.pinned || e.refs[d] > 0)
    ensures d in c.s.tree.kids && (d != e.s.tree.root ==> d in c.s.tree.parent && c.s.tree.parent[d] in c.s.tree.kids)
    ensures d in c.refs && c.refs[d] == e.refs[d]
  {
    hide Tree.Valid, Due, Sane;
    GoodFacts(c);
    if d in c.s.tree.parent { ParentFacts(c.s.tree, d); }
  }

  /** An entry that stays has a child, a pin or a user. */
  lemma SettledHeld(e: Cache, c: Cache, d: Ref)
    requires Settled(e, c) && d in c.s.tree.kids && e.s.tree.Valid() && d in e.s.tree.kids
    ensures d in e.refs && (d in e.pinned || e.refs[d] > 0 || e.s.tree.kids[d] != [])
  {
    hide Tree.Valid, Sane;
    GoodFacts(c);
    if c.s.tree.kids[d] != [] {
      ChildFacts(c.s.tree, d, 0);
      ParentFacts(e.s.tree, c.s.tree.kids[d][0]);
    }
  }

  /** Unhashing, or making negative and freeing, is what removing an entry does; an own entry
      that nobody uses is gone. */
  lemma LeftSettled(c: Cache, count: map<Ref, int>, d: Ref, dead: bool, c': Cache)
    requires Good(c) && Good(c') && d in c.s.inode && (dead ==> d !in c'.s.tree.kids)
    requires var s := c.s.(count := count);
             Kept(if dead then s.(inode := s.inode[d := 0]) else s.(hashed := s.hashed - {d}), c.refs, c'.s, c'.refs, c'.pinned)
    requires c'.pinned == Left(c, d).pinned && c'.foreign == c.foreign
    ensures Settled(Left(c, d), c')
    ensures !c.Mirror(d) && !InUse(c, d) ==> d !in c'.s.tree.kids
  {
    hide Tree.Valid, Due, Sane, Kept;
    GoodFacts(c);
    KeptLeft(c.s.(count := count), c.refs, c'.s, c'.refs, c'.pinned, d, dead);
    KeptAnyCount(c.s.(hashed := c.s.hashed - {d}, count := count), c.refs, c'.s, c'.refs, c'.pinned, c.s.count);
    if d in c'.s.tree.kids { SettledHeld(Left(c, d), c', d); }
  }

  /** One step from a clean state leads to a clean state if and only if it is no leak. */
  lemma CleanStep(c: Cache, op: Op, addr: Ref, c': Cache)
    requires Good(c) && Clean(c) && Did(c, op, addr, c') && !Breaks(c, op, addr)
    ensures Clean(c') <==> !Leaks(c, op, addr)
  {
    hide Tree.Valid, Due, Sane, Kept;
    GoodFacts(c);
    var e := Effect(c, op, addr);
    if Leaks(c, op, addr) {
      LeakShows(c, op, addr, c');
    } else {
      forall d | d in c'.s.tree.parent ensures Tidy(c', d) {
        SettledFacts(e, c', d);
        TidyEffect(c, op, addr, c', d);
      }
    }
  }

  lemma TidyEffect(c: Cache, op: Op, addr: Ref, c': Cache, d: Ref)
    requires Good(c) && Clean(c) && Did(c, op, addr, c') && !Breaks(c, op, addr) && !Leaks(c, op, addr)
    requires c.refs.Keys == c.s.tree.kids.Keys && d in c'.s.tree.parent && d in Effect(c, op, addr).s.tree.parent
    ensures Tidy(Effect(c, op, addr), d)
  {
    hide Good, Clean, Effect, Settled;
    if !Enabled(c, op, addr) {
      TidyIdle(c, op, addr, d);
    } else if op.CreateOp? || op.RemoteCreateOp? || op.LinkOp? {
      TidyMade(c, op, addr, d);
    } else if op.LookupOp? {
      TidyLooked(c, op, addr, d);
    } else {
      TidyTaken(c, op, addr, c', d);
    }
  }

  lemma TidyIdle(c: Cache, op: Op, addr: Ref, d: Ref)
    requires Good(c) && Clean(c) && c.refs.Keys == c.s.tree.kids.Keys && !Enabled(c, op, addr)
    requires d in Effect(c, op, addr).s.tree.parent
    ensures Tidy(Effect(c, op, addr), d)
  {
    hide Good;
  }

  lemma TidyLooked(c: Cache, op: Op, addr: Ref, d: Ref)
    requires Good(c) && Clean(c) && c.refs.Keys == c.s.tree.kids.Keys && d in Effect(c, op, addr).s.tree.parent
    requires Enabled(c, op, addr) && op.LookupOp?
    ensures Tidy(Effect(c, op, addr), d)
  {
    hide Good, Tree.Valid, Clean;
    GoodFacts(c);
    if d in c.s.tree.parent {
      CleanAt(c, d);
      ParentFacts(c.s.tree, d);
    }
  }

  lemma TidyMade(c: Cache, op: Op, addr: Ref, d: Ref)
    requires Good(c) && Clean(c) && c.refs.Keys == c.s.tree.kids.Keys && d in Effect(c, op, addr).s.tree.parent
    requires Enabled(c, op, addr) && !Breaks(c, op, addr) && !Leaks(c, op, addr) && (op.CreateOp? || op.RemoteCreateOp? || op.LinkOp?)
    ensures Tidy(Effect(c, op, addr), d)
  {
    hide Tree.Valid, Due, Sane, Entered, Clean;
    GoodFacts(c);
    match op
    case CreateOp(dir, nm, ino, isDir) => TidyEntered(c, dir, nm, ino, isDir, addr, d);
    case RemoteCreateOp(dir, nm, ino, isDir) =>
      NoRevival(c, dir, nm);
      TidyEntered(c, dir, nm, ino, isDir, addr, d);
    case LinkOp(target, dir, nm) => TidyEntered(c, dir, nm, c.s.inode[target], false, addr, d);
  }

  lemma TidyAlike(c: Cache, e: Cache, d: Ref)
    requires Clean(c) && d in c.s.tree.parent && e.s == c.s && e.pinned == c.pinned
    ensures Tidy(e, d)
  {
    CleanAt(c, d);
  }

  /** In a dead directory a creation for the peer breaks the cache or revives a negative entry. */
  lemma NoRevival(c: Cache, dir: Ref, nm: string)
    requires !LookupFails(c, dir, nm) && !NameTaken(c.s, dir, nm)
    requires !Revives(c, dir, nm)
    ensures !c.Dead(dir)
  {
    if Child(c.s, dir, nm).ThisRef? {
      var x := Child(c.s, dir, nm).ref;
      assert c.s.Finds(dir, nm, x);
    }
  }

  lemma TidyTaken(c: Cache, op: Op, addr: Ref, c': Cache, d: Ref)
    requires Good(c) && Clean(c) && Did(c, op, addr, c') && Enabled(c, op, addr) && !Leaks(c, op, addr)
    requires c.refs.Keys == c.s.tree.kids.Keys && d in c'.s.tree.parent && d in Effect(c, op, addr).s.tree.parent
    requires !(op.CreateOp? || op.RemoteCreateOp? || op.LinkOp? || op.LookupOp?)
    ensures Tidy(Effect(c, op, addr), d)
  {
    hide Good, Settled, Tree.Valid, InUse, Clean, Left, Tidy;
    GoodFacts(c);
    var e := Effect(c, op, addr);
    match op
    case UnlinkOp(x) => FileChildless(c, x); LeftTree(c, x); TidyLeft(c, x, d);
    case RmdirOp(x) => LeftTree(c, x); TidyLeft(c, x, d);
    case RemoteUnlinkOp(x) => TidyDropped(c, e, c', x, d);
    case RemoteRmdirOp(x) => if c.NoLiveChild(x) { TidyDropped(c, e, c', x, d); } else { TidyAlike(c, e, d); }
    case OpenOp(_) => TidyAlike(c, e, d);
    case CloseOp(_) => TidyAlike(c, e, d);
  }

  lemma FileChildless(c: Cache, x: Ref)
    requires Good(c) && x in c.s.tree.kids && !c.s.IsDir(x)
    ensures c.s.tree.kids[x] == [] && c.NoLiveChild(x)
  {
    hide Tree.Valid, Due;
    if c.s.tree.kids[x] != [] { ChildFacts(c.s.tree, x, 0); }
  }

  lemma LeftTree(c: Cache, x: Ref)
    ensures Left(c, x).s.tree == c.s.tree
  {
  }

  /** A mirror nobody uses is gone once its pin is dropped, and nothing hung below it. */
  lemma TidyDropped(c: Cache, e: Cache, c': Cache, x: Ref, d: Ref)
    requires Good(c) && Clean(c) && x in c.s.tree.kids && !InUse(c, x) && x in c.refs
    requires e == c.(pinned := c.pinned - {x}, foreign := e.foreign) && Settled(e, c')
    requires d in c'.s.tree.parent && d in c.s.tree.parent
    ensures Tidy(e, d)
  {
    hide Tree.Valid, Due, Sane, Kept;
    GoodFacts(c);
    GoodFacts(c');
    assert Tidy(c, d);
    NotInUse(c, x, d);
    if d == x { SettledHeld(e, c', d); }
  }

  lemma NotInUse(c: Cache, x: Ref, d: Ref)
    requires Good(c) && d in c.s.tree.parent && x in c.s.tree.kids && !InUse(c, x)
    ensures c.s.tree.parent[d] != x
  {
    hide Tree.Valid, Due, Sane;
    GoodFacts(c);
    ParentFacts(c.s.tree, d);
  }

  lemma TidyEntered(c: Cache, dir: Ref, nm: string, ino: nat, isDir: bool, addr: Ref, d: Ref)
    requires Good(c) && Clean(c) && dir in c.s.tree.kids && dir in c.s.tree.depth && dir in c.s.count && addr !in c.s.tree.kids
    requires !c.Dead(dir) && ino != 0
    requires d in Entered(c, dir, nm, ino, isDir, addr).s.tree.parent
    ensures Tidy(Entered(c, dir, nm, ino, isDir, addr), d)
  {
    hide Good, Tree.Valid, Clean, Tidy;
    GoodFacts(c);
    match Child(c.s, dir, nm)
    case ThisRef(x) =>
      FindsFacts(c.s, dir, nm, x);
      CleanAt(c, d);
      if !c.s.Live(x) { TidyRevived(c, dir, x, ino, isDir, d); }
    case NoRef =>
      if d == addr { TidyAdded(c, dir, nm, ino, isDir, addr); } else { TidyBeside(c, dir, nm, ino, isDir, addr, d); }
  }

  lemma TidyRevived(c: Cache, dir: Ref, x: Ref, ino: nat, isDir: bool, d: Ref)
    requires Good(c) && Clean(c) && !c.Dead(dir) && ino != 0 && x in c.s.hashed
    requires x in c.s.tree.parent && c.s.tree.parent[x] == dir && d in c.s.tree.parent
    ensures Tidy(c.(s := c.s.Born(x, ino, isDir), pinned := c.pinned + {x}), d)
  {
    hide Good, Tree.Valid, Clean;
    GoodFacts(c);
    ParentFacts(c.s.tree, x);
    CleanAt(c, d);
    if dir != c.s.tree.root { CleanAt(c, dir); }
  }

  lemma TidyAdded(c: Cache, dir: Ref, nm: string, ino: nat, isDir: bool, x: Ref)
    requires Good(c) && Clean(c) && !c.Dead(dir) && ino != 0 && x !in c.s.tree.kids
    requires dir in c.s.tree.kids && dir in c.s.tree.depth && dir in c.s.count
    ensures var s := c.s.Add(dir, nm, x).Born(x, ino, isDir);
            x in s.tree.parent && Tidy(c.(s := s, pinned := c.pinned + {x}, refs := c.refs[x := 0]), x)
  {
    hide Good, Tree.Valid, Clean;
    GoodFacts(c);
    if dir != c.s.tree.root { CleanAt(c, dir); }
  }

  lemma TidyBeside(c: Cache, dir: Ref, nm: string, ino: nat, isDir: bool, x: Ref, d: Ref)
    requires Good(c) && Clean(c) && d != x && x !in c.s.tree.kids
    requires dir in c.s.tree.kids && dir in c.s.tree.depth && dir in c.s.count
    requires d in c.s.Add(dir, nm, x).tree.parent
    ensures var s := c.s.Add(dir, nm, x).Born(x, ino, isDir);
            Tidy(c.(s := s, pinned := c.pinned + {x}, refs := c.refs[x := 0]), d)
  {
    hide Good, Tree.Valid, Clean;
    GoodFacts(c);
    CleanAt(c, d);
    ParentFacts(c.s.tree, d);
  }

  lemma TidyLeft(c: Cache, x: Ref, d: Ref)
    requires Good(c) && Clean(c) && d in c.s.tree.parent && c.NoLiveChild(x) && !c.Mirror(x)
    ensures Tidy(Left(c, x), d)
  {
    hide Tree.Valid, Due, Sane;
    GoodFacts(c);
    ParentFacts(c.s.tree, d);
    assert Tidy(c, d);
  }

  lemma LeakShows(c: Cache, op: Op, addr: Ref, c': Cache)
    requires Good(c) && Clean(c) && Did(c, op, addr, c') && !Breaks(c, op, addr) && Leaks(c, op, addr)
    ensures !Clean(c')
  {
    hide Tree.Valid, Due, Kept;
    GoodFacts(c);
    GoodFacts(c');
    var e := Effect(c, op, addr);
    match op
    case RemoteCreateOp(dir, nm, _, _) =>
      assert Tidy(c, dir);
      var x := Child(c.s, dir, nm).ref;
      FindsFacts(c.s, dir, nm, x);
      SettledStays(e, c', x);
      SettledFacts(e, c', x);
    case UnlinkOp(d) => SettledStays(e, c', d); SettledFacts(e, c', d);
    case RmdirOp(d) => SettledStays(e, c', d); SettledFacts(e, c', d);
    case RemoteUnlinkOp(d) => Lingers(c, d, e, c');
    case RemoteRmdirOp(d) => Lingers(c, d, e, c');
  }

  /** A mirror in use outlives its removal, without a pin. */
  lemma Lingers(c: Cache, d: Ref, e: Cache, c': Cache)
    requires Good(c) && Clean(c) && d in c.s.tree.parent && d in c.pinned && InUse(c, d)
    requires e == c.(pinned := c.pinned - {d}, foreign := e.foreign) && Settled(e, c')
    ensures d in c'.s.tree.parent && !Tidy(c', d)
  {
    hide Tree.Valid, Due, Sane, Kept;
    GoodFacts(c);
    GoodFacts(c');
    assert Tidy(c, d);
    if c.refs[d] > 0 {
      SettledStays(e, c', d);
    } else {
      HeldBelow(c, e, c', d);
    }
    SettledFacts(e, c', d);
  }

  /** Below an entry with children somebody holds an entry, so it stays. */
  lemma {:induction false} HeldBelow(c: Cache, e: Cache, c': Cache, d: Ref)
    requires Good(c) && Settled(e, c') && d in c.s.tree.parent && c.s.tree.kids[d] != []
    requires e.s == c.s && e.refs == c.refs && forall x :: x in c.pinned && c.s.tree.kids[x] == [] ==> x in e.pinned
    ensures d in c'.s.tree.parent
    decreases if d in c.s.tree.depth then c.s.tree.bound - c.s.tree.depth[d] else 0
  {
    hide Tree.Valid, Sane, Kept;
    GoodFacts(c);
    GoodFacts(c');
    ChildFacts(c.s.tree, d, 0);
    var y := c.s.tree.kids[d][0];
    if c.s.tree.kids[y] != [] {
      HeldBelow(c, e, c', y);
    } else {
      DueFacts(c.s.tree, c.s.count, c.pinned, c.refs, {});
      SettledStays(e, c', y);
    }
    SettledFacts(e, c', y);
    ParentFacts(c'.s.tree, y);
    ParentFacts(c.s.tree, d);
  }

  // ---------------------------------------------------------------- runs

  lemma MountedGood(root: Ref, ino: nat)
    requires ino != 0
    ensures Good(Mounted(root, ino))
  {
    var t := Mounted(root, ino).s.tree;
    assert t.kids[root] == [] && t.kids.Keys == {root} && t.parent.Keys == {};
  }

  lemma MountedClean(root: Ref, ino: nat)
    requires ino != 0
    ensures Good(Mounted(root, ino)) && Clean(Mounted(root, ino))
  {
    MountedGood(root, ino);
  }

  lemma DidGood(c: Cache, op: Op, addr: Ref, c': Cache)
    requires Good(c) && Did(c, op, addr, c')
    ensures Good(c')
  {
  }

  /** The first `n` operations were done, one after the other. */
  ghost predicate Prefix(root: Ref, ino: nat, ops: seq<(Op, Ref)>, n: nat, trace: seq<Cache>) {
    && n <= |ops| && |trace| == n + 1 && trace[0] == Mounted(root, ino) && (forall i :: 0 <= i <= n ==> Good(trace[i]))
    && forall i :: 0 <= i < n ==> !Breaks(trace[i], ops[i].0, ops[i].1) && Did(trace[i], ops[i].0, ops[i].1, trace[i + 1])
  }

  /** All operations were done, or all up to the first that breaks the cache. */
  ghost predicate Trace(root: Ref, ino: nat, ops: seq<(Op, Ref)>, n: nat, trace: seq<Cache>) {
    Prefix(root, ino, ops, n, trace) && (n < |ops| ==> Breaks(trace[n], ops[n].0, ops[n].1))
  }

  lemma PrefixOn(root: Ref, ino: nat, ops: seq<(Op, Ref)>, n: nat, trace: seq<Cache>, c: Cache)
    requires Prefix(root, ino, ops, n, trace) && n < |ops| && !Breaks(trace[n], ops[n].0, ops[n].1)
    requires Good(trace[n]) && Did(trace[n], ops[n].0, ops[n].1, c) && Good(c)
    ensures Prefix(root, ino, ops, n + 1, trace + [c])
  {
    hide Good, Did, Breaks, Mounted;
  }
}
