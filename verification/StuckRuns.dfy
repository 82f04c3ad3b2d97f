/**
 Runs that stop the kernel, at the unmount or before, one that comes close, and one of a process that
 removes what it made.
 */
module StuckRuns {
  import opened Trees
  import opened RefCounts
  import opened Stores
  import opened CacheRuns
  import opened CacheEffects
  import opened Dcaches

  /** The root 1 with inode 1 and below it the live entry 2 with inode 7, used `n` times. */
  ghost predicate OneEntry(c: Cache, isDir: bool, pinned: set<Ref>, n: nat, foreign: set<nat>) {
    && Good(c) && c.s.tree.root == 1 && c.s.tree.kids.Keys == {1, 2} && c.s.tree.parent == map[2 := 1]
    && c.s.Live(2) && c.pinned == pinned && c.refs == map[1 := 0, 2 := n] && c.foreign == foreign
    && c.s.inode == map[1 := 1, 2 := 7] && c.s.dirs == if isDir then {1, 7} else {1}
  }

  lemma NoChildren(c: Cache, d: Ref)
    requires Good(c) && d in c.s.tree.kids && forall x :: x in c.s.tree.parent ==> c.s.tree.parent[x] != d
    ensures c.s.tree.kids[d] == [] && c.NoLiveChild(d) && forall nm, x :: !c.s.Finds(d, nm, x)
  {
    hide Tree.Valid, Due, Sane;
    GoodFacts(c);
    if c.s.tree.kids[d] != [] { ChildFacts(c.s.tree, d, 0); }
  }

  /** The freed entries are none if every entry is pinned or in use. */
  lemma AllStay(e: Cache, c: Cache)
    requires Settled(e, c) && e.s.tree.Valid() && e.refs.Keys == e.s.tree.kids.Keys && e.s.inode.Keys == e.s.tree.kids.Keys
    requires forall d :: d in e.s.tree.kids ==> d in e.pinned || e.refs[d] > 0
    ensures c.s.tree.kids.Keys == e.s.tree.kids.Keys && c.s.tree.parent == e.s.tree.parent && c.s.tree.root == e.s.tree.root
    ensures c.refs == e.refs && c.pinned == e.pinned && c.foreign == e.foreign && c.s.dirs == e.s.dirs
    ensures c.s.inode == e.s.inode && Good(c) && forall d :: d in e.s.tree.kids ==> (c.s.Live(d) <==> e.s.Live(d))
  {
    hide Tree.Valid, Due, Sane;
    GoodFacts(c);
    RootFacts(e.s.tree);
    forall d | d in e.s.tree.kids ensures d in c.s.tree.kids { SettledStays(e, c, d); }
  }

  /** Creating in a directory without children. */
  lemma EnteredNew(c: Cache, dir: Ref, nm: string, ino: nat, isDir: bool, addr: Ref)
    requires Good(c) && dir in c.s.tree.kids && dir in c.s.tree.depth && dir in c.s.count && addr !in c.s.tree.kids && ino != 0
    requires forall x :: !c.s.Finds(dir, nm, x)
    ensures var e := Entered(c, dir, nm, ino, isDir, addr);
            && e.s.tree.Valid() && e.s.tree.root == c.s.tree.root && e.s.tree.kids.Keys == c.s.tree.kids.Keys + {addr}
            && e.s.tree.parent == c.s.tree.parent[addr := dir] && e.refs == c.refs[addr := 0] && e.pinned == c.pinned + {addr}
            && e.foreign == c.foreign && e.s.Live(addr) && e.s.inode == c.s.inode[addr := ino]
            && e.s.dirs == if isDir then c.s.dirs + {ino} else c.s.dirs
  {
    hide Tree.Valid, Due, Sane;
    GoodFacts(c);
    GrowValid(c.s.tree, dir, addr);
  }

  lemma FirstMirror(isDir: bool, c: Cache)
    requires Good(Mounted(1, 1)) && Did(Mounted(1, 1), RemoteCreateOp(1, "m", 7, isDir), 2, c)
    ensures OneEntry(c, isDir, {1, 2}, 0, {7})
  {
    hide Good, Settled, Entered, Tree.Valid;
    var c0 := Mounted(1, 1);
    GoodFacts(c0);
    NoChildren(c0, 1);
    EnteredNew(c0, 1, "m", 7, isDir, 2);
    assert Enabled(c0, RemoteCreateOp(1, "m", 7, isDir), 2);
    AllStay(Entered(c0, 1, "m", 7, isDir, 2).(foreign := c0.foreign + {7}), c);
  }

  lemma Opened(c: Cache, c': Cache)
    requires OneEntry(c, true, {1, 2}, 0, {7}) && Did(c, OpenOp(2), 0, c')
    ensures OneEntry(c', true, {1, 2}, 1, {7})
  {
    hide Tree.Valid, Due, Sane, Kept;
    GoodFacts(c);
    AllStay(Effect(c, OpenOp(2), 0), c');
  }

  lemma RemovedWhileOpen(c: Cache, c': Cache)
    requires OneEntry(c, true, {1, 2}, 1, {7}) && Did(c, RemoteRmdirOp(2), 0, c')
    ensures OneEntry(c', true, {1}, 1, {})
  {
    hide Good, Settled, Tree.Valid;
    GoodFacts(c);
    NoChildren(c, 2);
    var e := c.(pinned := {1}, foreign := {});
    assert c.pinned - {2} == {1} && c.foreign - {7} == {};
    assert Effect(c, RemoteRmdirOp(2), 0) == e;
    AllStay(e, c');
  }

  /** Entry 3 with inode 8 below entry 2, which has no pin. */
  ghost predicate Below(c: Cache, n: nat) {
    && Good(c) && c.s.tree.root == 1 && c.s.tree.kids.Keys == {1, 2, 3} && c.s.tree.parent == map[2 := 1, 3 := 2]
    && c.s.Live(3) && c.pinned == {1, 3} && c.refs == map[1 := 0, 2 := n, 3 := 0]
  }

  lemma MadeBelow(c: Cache, c': Cache)
    requires OneEntry(c, true, {1}, 1, {}) && Did(c, CreateOp(2, "f", 8, false), 3, c')
    ensures Below(c', 1)
  {
    hide Good, Settled, Entered, Tree.Valid;
    GoodFacts(c);
    NoChildren(c, 2);
    EnteredNew(c, 2, "f", 8, false, 3);
    assert Enabled(c, CreateOp(2, "f", 8, false), 3);
    AllStay(Entered(c, 2, "f", 8, false, 3), c');
  }

  lemma Closed(c: Cache, c': Cache)
    requires Below(c, 1) && Did(c, CloseOp(2), 0, c')
    ensures Quiet(c') && Stuck(c')
  {
    hide Tree.Valid, Due, Sane, Kept;
    GoodFacts(c);
    GoodFacts(c');
    var e := Effect(c, CloseOp(2), 0);
    SettledStays(e, c', 3);
    SettledFacts(e, c', 3);
    assert Orphan(c', 3);
    forall d | d in c'.refs ensures c'.refs[d] == 0 {
      if d != 1 { SettledFacts(e, c', d); } else { SettledStays(e, c', 1); }
    }
  }

  function LeakOps(): seq<(Op, Ref)> {
    [(RemoteCreateOp(1, "m", 7, true), 2), (OpenOp(2), 0), (RemoteRmdirOp(2), 0), (CreateOp(2, "f", 8, false), 3), (CloseOp(2), 0)]
  }

  /** The peer makes a directory, a process here opens it, the peer removes it, and the process
      makes a file in it and closes it: the unmount stops the kernel. */
  method RemovedWhileInUse() returns (stopped: bool)
    ensures stopped
  {
    hide Good, Did, Breaks, Stuck, Quiet, Leaks;
    var ops := LeakOps();
    var done, clean, busy, left;
    ghost var trace;
    done, clean, busy, stopped, left, trace := Session(1, 1, ops);
    assert trace[0] == Mounted(1, 1);
    LeakRun(ops, done, trace);
  }

  lemma LeakRun(ops: seq<(Op, Ref)>, n: nat, trace: seq<Cache>)
    requires ops == LeakOps() && Trace(1, 1, ops, n, trace)
    ensures n == 5 && Quiet(trace[5]) && Stuck(trace[5])
  {
    hide Good, Did, Stuck, Quiet, Mounted, OneEntry, Below;
    FirstPossible(true);
    FirstMirror(true, trace[1]);
    Opened(trace[1], trace[2]);
    RemovedWhileOpen(trace[2], trace[3]);
    MadeBelow(trace[3], trace[4]);
    Closed(trace[4], trace[5]);
  }

  lemma FirstPossible(isDir: bool)
    ensures Good(Mounted(1, 1)) && !Breaks(Mounted(1, 1), RemoteCreateOp(1, "m", 7, isDir), 2)
  {
    MountedGood(1, 1);
    NoChildren(Mounted(1, 1), 1);
  }

  lemma RemovedMirror(c: Cache, c': Cache)
    requires OneEntry(c, false, {1, 2}, 0, {7}) && Did(c, UnlinkOp(2), 0, c')
    ensures Quiet(c') && Stuck(c')
  {
    hide Tree.Valid, Due, Sane, Kept;
    GoodFacts(c);
    NoChildren(c, 2);
    AllStay(Effect(c, UnlinkOp(2), 0), c');
    assert Stranded(c', 2);
  }

  lemma MirrorUnbroken(isDir: bool, c: Cache)
    requires OneEntry(c, isDir, {1, 2}, 0, {7})
    ensures !Breaks(c, UnlinkOp(2), 0) && !Breaks(c, RmdirOp(2), 0)
  {
  }

  function UnlinkOps(): seq<(Op, Ref)> { [(RemoteCreateOp(1, "m", 7, false), 2), (UnlinkOp(2), 0)] }

  /** The peer makes a file and a process here removes the mirror: the unmount stops the kernel. */
  method MirrorRemovedHere() returns (stopped: bool)
    ensures stopped
  {
    hide Good, Did, Breaks, Stuck, Quiet, Leaks;
    var ops := UnlinkOps();
    var done, clean, busy, left;
    ghost var trace;
    done, clean, busy, stopped, left, trace := Session(1, 1, ops);
    UnlinkRun(ops, done, trace);
  }

  lemma UnlinkRun(ops: seq<(Op, Ref)>, n: nat, trace: seq<Cache>)
    requires ops == UnlinkOps() && Trace(1, 1, ops, n, trace)
    ensures n == 2 && Quiet(trace[2]) && Stuck(trace[2])
  {
    hide Good, Did, Breaks, Stuck, Quiet, Mounted, OneEntry;
    FirstPossible(false);
    FirstMirror(false, trace[1]);
    MirrorUnbroken(false, trace[1]);
    RemovedMirror(trace[1], trace[2]);
  }

  lemma ClosedEmpty(c: Cache, c': Cache)
    requires OneEntry(c, true, {1}, 1, {}) && Did(c, CloseOp(2), 0, c')
    ensures Quiet(c') && !Stuck(c')
  {
    hide Tree.Valid, Due, Sane, Kept;
    GoodFacts(c);
    GoodFacts(c');
    NoChildren(c, 2);
    var e := Effect(c, CloseOp(2), 0);
    if 2 in c'.s.tree.kids { SettledHeld(e, c', 2); }
    SettledStays(e, c', 1);
    forall x | x in c'.s.tree.kids ensures x == 1 {
      if x != 1 { SettledFacts(e, c', x); }
    }
  }

  function CloseOps(): seq<(Op, Ref)> {
    [(RemoteCreateOp(1, "m", 7, true), 2), (OpenOp(2), 0), (RemoteRmdirOp(2), 0), (CloseOp(2), 0)]
  }

  /** Closing the removed directory without having used it frees it, and the unmount goes through. */
  method RemovedWhileOpenOnly() returns (stopped: bool, left: nat)
    ensures !stopped && left == 0
  {
    hide Good, Did, Breaks, Stuck, Quiet, Leaks;
    var ops := CloseOps();
    var done, clean, busy;
    ghost var trace;
    done, clean, busy, stopped, left, trace := Session(1, 1, ops);
    CloseRun(ops, done, trace);
  }

  lemma CloseRun(ops: seq<(Op, Ref)>, n: nat, trace: seq<Cache>)
    requires ops == CloseOps() && Trace(1, 1, ops, n, trace)
    ensures n == 4 && Quiet(trace[4]) && !Stuck(trace[4])
  {
    hide Good, Did, Stuck, Quiet, Mounted, OneEntry;
    FirstPossible(true);
    FirstMirror(true, trace[1]);
    Opened(trace[1], trace[2]);
    RemovedWhileOpen(trace[2], trace[3]);
    ClosedEmpty(trace[3], trace[4]);
  }

  /** The mirror directory is unhashed but still there, and a creation in it breaks the cache. */
  lemma DeadMirror(c: Cache, c': Cache)
    requires OneEntry(c, true, {1, 2}, 0, {7}) && Did(c, RmdirOp(2), 0, c')
    ensures Breaks(c', RemoteCreateOp(2, "f", 8, false), 3)
    ensures LookupFails(c', 2, "f") && !NameTaken(c'.s, 2, "f")
  {
    hide Good, Settled, Tree.Valid;
    GoodFacts(c);
    NoChildren(c, 2);
    assert Enabled(c, RmdirOp(2), 0);
    AllStay(Left(c, 2), c');
    NoChildren(c', 2);
  }

  function DeadOps(): seq<(Op, Ref)> {
    [(RemoteCreateOp(1, "m", 7, true), 2), (RmdirOp(2), 0), (RemoteCreateOp(2, "f", 8, false), 3)]
  }

  /** The peer makes a directory, a process here removes the mirror, and the peer makes a file in
      it: the server finds the dead directory, the lookup fails, and the kernel stops there. */
  method CreatedInDeadMirror() returns (done: nat)
    ensures done == 2
  {
    hide Good, Did, Breaks, Stuck, Quiet, Leaks;
    var ops := DeadOps();
    var clean, busy, stopped, left;
    ghost var trace;
    done, clean, busy, stopped, left, trace := Session(1, 1, ops);
    DeadRun(ops, done, trace);
  }

  lemma DeadRun(ops: seq<(Op, Ref)>, n: nat, trace: seq<Cache>)
    requires ops == DeadOps() && Trace(1, 1, ops, n, trace)
    ensures n == 2 && LookupFails(trace[2], 2, "f") && !NameTaken(trace[2].s, 2, "f")
  {
    hide Good, Did, Breaks, Stuck, Quiet, Mounted, OneEntry;
    FirstPossible(true);
    FirstMirror(true, trace[1]);
    MirrorUnbroken(true, trace[1]);
    DeadMirror(trace[1], trace[2]);
  }

  // ---------------------------------------------------------------- own entries

  /** The entries below the root 1, all live, pinned and unused, and none of them a mirror. */
  datatype Space = Space(parent: map<Ref, Ref>, inode: map<Ref, nat>, name: map<Ref, string>, dirs: set<nat>)

  ghost predicate Shows(c: Cache, v: Space) {
    && Good(c) && c.s.tree.root == 1 && c.s.tree.parent == v.parent && c.s.inode == v.inode && c.s.name == v.name
    && c.s.dirs == v.dirs && c.s.hashed == v.parent.Keys && c.pinned == c.s.tree.kids.Keys == v.parent.Keys + {1}
    && (forall d :: d in c.refs ==> c.refs[d] == 0) && c.foreign == {} && c.refs.Keys == c.s.tree.kids.Keys
  }

  /** The entries other than `d` are as before. */
  lemma Beside(c: Cache, v: Space, c': Cache, d: Ref, y: Ref)
    requires Shows(c, v) && Good(c') && OthersKept(c, c', d) && y != d
    ensures (y in c'.s.tree.kids <==> y in c.s.tree.kids) && (y in c'.pinned <==> y in c.pinned)
    ensures y in c.s.tree.kids ==> SameAt(c, c', y)
  {
    hide Good;
    GoodFacts(c);
    assert EntryKept(c, c', y);
  }

  lemma KeysBeside(c: Cache, v: Space, c': Cache, d: Ref)
    requires Shows(c, v) && Good(c') && OthersKept(c, c', d)
    ensures c'.s.tree.kids.Keys - {d} == c.s.tree.kids.Keys - {d}
    ensures forall y :: y != d ==> (y in c'.s.tree.kids <==> y in c.s.tree.kids)
  {
    hide Good, OthersKept, SameAt, Shows;
    forall y | y != d ensures y in c'.s.tree.kids <==> y in c.s.tree.kids { Beside(c, v, c', d, y); }
  }

  lemma ShowsIntro(c: Cache, v: Space)
    requires Good(c) && c.s.tree.root == 1 && c.s.tree.kids.Keys == v.parent.Keys + {1} == v.inode.Keys == v.name.Keys
    requires forall y :: y in v.parent ==> ShowsAt(c, v, y)
    requires ShowsAt(c, v, 1) && 1 !in c.s.hashed && 1 !in v.parent && c.s.dirs == v.dirs && c.foreign == {}
    ensures Shows(c, v)
  {
    hide Good, ShowsAt;
    GoodFacts(c);
    ShownMaps(c, v);
    forall y | y in c.s.tree.kids ensures y in c.pinned && c.refs[y] == 0 { ShownField(c, v, y); }
    forall y | y in v.parent ensures y in c.s.hashed { ShownField(c, v, y); }
    assert c.s.hashed == v.parent.Keys && c.pinned == c.s.tree.kids.Keys;
  }

  lemma ShownMaps(c: Cache, v: Space)
    requires Good(c) && c.s.tree.root == 1 && c.s.tree.kids.Keys == v.parent.Keys + {1} == v.inode.Keys == v.name.Keys
    requires (forall y :: y in v.parent ==> ShowsAt(c, v, y)) && ShowsAt(c, v, 1) && 1 !in v.parent
    ensures c.s.inode == v.inode && c.s.name == v.name && c.s.tree.parent == v.parent
  {
    hide Good, ShowsAt;
    GoodFacts(c);
    NamesWired(c);
    forall y | y in v.inode ensures c.s.inode[y] == v.inode[y] && c.s.name[y] == v.name[y] { ShownField(c, v, y); }
    forall y | y in v.parent ensures y in c.s.tree.parent && c.s.tree.parent[y] == v.parent[y] { ShownField(c, v, y); }
    SameMap(c.s.inode, v.inode);
    SameMap(c.s.name, v.name);
    SameMap(c.s.tree.parent, v.parent);
  }

  lemma ShownField(c: Cache, v: Space, y: Ref)
    requires ShowsAt(c, v, y)
    ensures y in c.s.inode && y in v.inode && c.s.inode[y] == v.inode[y] && y in c.s.name && y in v.name && c.s.name[y] == v.name[y]
    ensures y in c.pinned && y in c.refs && c.refs[y] == 0
    ensures y in v.parent ==> y in c.s.hashed && y in c.s.tree.parent && c.s.tree.parent[y] == v.parent[y]
  {
  }

  lemma SameMap<V>(a: map<Ref, V>, b: map<Ref, V>)
    requires a.Keys == b.Keys && forall k :: k in a ==> a[k] == b[k]
    ensures a == b
  {
  }

  ghost predicate ShowsAt(c: Cache, v: Space, y: Ref) {
    && y in c.s.inode && y in v.inode && c.s.inode[y] == v.inode[y] && y in c.s.name && y in v.name && c.s.name[y] == v.name[y]
    && y in c.pinned && y in c.refs && c.refs[y] == 0
    && (y in v.parent ==> y in c.s.hashed && y in c.s.tree.parent && c.s.tree.parent[y] == v.parent[y])
  }

  lemma NamesWired(c: Cache)
    requires Good(c)
    ensures c.s.name.Keys == c.s.tree.kids.Keys
  {
  }

  lemma ShownBeside(c: Cache, v: Space, c': Cache, w: Space, d: Ref, y: Ref)
    requires Shows(c, v) && Good(c') && OthersKept(c, c', d) && y != d && y in c.s.tree.kids
    requires y in w.inode && y in v.inode && w.inode[y] == v.inode[y] && y in w.name && y in v.name && w.name[y] == v.name[y]
    requires (y in w.parent <==> y in v.parent) && (y in v.parent ==> w.parent[y] == v.parent[y])
    ensures ShowsAt(c', w, y)
  {
    hide Good, OthersKept;
    Beside(c, v, c', d, y);
  }

  lemma ShowsMade(c: Cache, v: Space, c': Cache, dir: Ref, nm: string, ino: nat, isDir: bool, addr: Ref)
    requires Shows(c, v) && Good(c') && addr !in c.s.tree.kids && c'.foreign == {} && exists x :: Appears(c, c', x, dir, nm, ino, isDir, addr)
    ensures Shows(c', Space(v.parent[addr := dir], v.inode[addr := ino], v.name[addr := nm], if isDir then v.dirs + {ino} else v.dirs))
  {
    hide Good, OthersKept, ShowsAt, SameAt, EntryKept, Shows, Appears;
    ShowsFacts(c, v);
    var w := Space(v.parent[addr := dir], v.inode[addr := ino], v.name[addr := nm], if isDir then v.dirs + {ino} else v.dirs);
    var x :| Appears(c, c', x, dir, nm, ino, isDir, addr);
    AppearsAt(c, c', x, dir, nm, ino, isDir, addr);
    forall y | y in c.s.tree.kids ensures ShowsAt(c', w, y) { ShownBeside(c, v, c', w, addr, y); }
    KeysBeside(c, v, c', addr);
    assert c'.s.tree.kids.Keys == c.s.tree.kids.Keys + {addr};
    NewShown(c, c', dir, nm, ino, isDir, addr, w);
    RootUnhashed(c, v, c', addr);
    ShowsIntro(c', w);
  }

  lemma ShowsFacts(c: Cache, v: Space)
    requires Shows(c, v)
    ensures Good(c) && c.s.tree.kids.Keys == v.parent.Keys + {1} == v.inode.Keys == v.name.Keys && c.s.dirs == v.dirs && 1 !in v.parent
    ensures c.refs.Keys == c.s.tree.kids.Keys && c.pinned == c.s.tree.kids.Keys && c.foreign == {}
  {
    hide Good;
    GoodFacts(c);
    NamesWired(c);
  }

  lemma AppearsAt(c: Cache, c': Cache, x: Ref, dir: Ref, nm: string, ino: nat, isDir: bool, addr: Ref)
    requires Appears(c, c', x, dir, nm, ino, isDir, addr) && c.pinned == c.s.tree.kids.Keys && Good(c')
    ensures x == addr && OthersKept(c, c', addr) && addr in c'.s.tree.kids && c'.s.dirs == if isDir then c.s.dirs + {ino} else c.s.dirs
  {
    hide Good, OthersKept;
    GoodFacts(c');
  }

  lemma LeavesFacts(c: Cache, c': Cache, d: Ref)
    requires Leaves(c, c', d)
    ensures OthersKept(c, c', d) && c'.foreign == c.foreign && c'.s.dirs == c.s.dirs
  {
    hide OthersKept;
  }

  lemma NewShown(c: Cache, c': Cache, dir: Ref, nm: string, ino: nat, isDir: bool, x: Ref, w: Space)
    requires Appears(c, c', x, dir, nm, ino, isDir, x) && x !in c.refs && x in w.parent && w.parent[x] == dir
    requires x in w.inode && w.inode[x] == ino && x in w.name && w.name[x] == nm
    ensures ShowsAt(c', w, x)
  {
  }

  lemma RootUnhashed(c: Cache, v: Space, c': Cache, d: Ref)
    requires Shows(c, v) && Good(c') && OthersKept(c, c', d) && d != 1
    ensures c'.s.tree.root == 1 && 1 !in c'.s.hashed
  {
    hide Good;
    GoodFacts(c);
    GoodFacts(c');
    Beside(c, v, c', d, 1);
  }

  lemma ShowsLess(c: Cache, v: Space, c': Cache, d: Ref)
    requires Shows(c, v) && Good(c') && d in v.parent && Leaves(c, c', d) && d !in c'.s.tree.kids
    ensures Shows(c', Space(v.parent - {d}, v.inode - {d}, v.name - {d}, v.dirs))
  {
    hide Good, OthersKept, ShowsAt, SameAt, EntryKept, Shows, Leaves;
    ShowsFacts(c, v);
    LeavesFacts(c, c', d);
    var w := Space(v.parent - {d}, v.inode - {d}, v.name - {d}, v.dirs);
    forall y | y in c.s.tree.kids && y != d ensures ShowsAt(c', w, y) { ShownBeside(c, v, c', w, d, y); }
    KeysBeside(c, v, c', d);
    assert c'.s.tree.kids.Keys == c.s.tree.kids.Keys - {d};
    RootUnhashed(c, v, c', d);
    ShowsIntro(c', w);
  }

  /** Nothing in directory `dir` is called `nm`. */
  predicate FreeName(v: Space, dir: Ref, nm: string) {
    forall x :: x in v.parent && v.parent[x] == dir && x in v.name ==> v.name[x] != nm
  }

  lemma FreeInCache(c: Cache, v: Space, dir: Ref, nm: string)
    requires Shows(c, v) && FreeName(v, dir, nm)
    ensures !NameTaken(c.s, dir, nm)
  {
    hide Good;
    GoodFacts(c);
    if d :| c.s.Finds(dir, nm, d) && c.s.Live(d) { FindsFacts(c.s, dir, nm, d); }
  }

  lemma CreateShown(c: Cache, v: Space, dir: Ref, nm: string, ino: nat, isDir: bool, addr: Ref, c': Cache)
    requires Shows(c, v) && Did(c, CreateOp(dir, nm, ino, isDir), addr, c') && addr != 1 && addr !in v.parent
    requires ino != 0 && ino !in v.dirs && (forall d :: d in v.inode ==> v.inode[d] != ino)
    requires (dir == 1 || dir in v.parent) && dir in v.inode && v.inode[dir] in v.dirs && 0 !in v.dirs && FreeName(v, dir, nm)
    ensures Shows(c', Space(v.parent[addr := dir], v.inode[addr := ino], v.name[addr := nm], if isDir then v.dirs + {ino} else v.dirs))
  {
    hide Good, Settled, Appears, Did;
    ShowsFacts(c, v);
    DidGood(c, CreateOp(dir, nm, ino, isDir), addr, c');
    FreeInCache(c, v, dir, nm);
    CreateDoes(c, dir, nm, ino, isDir, addr, c');
    ShowsMade(c, v, c', dir, nm, ino, isDir, addr);
  }

  lemma LinkShown(c: Cache, v: Space, target: Ref, dir: Ref, nm: string, addr: Ref, c': Cache)
    requires Shows(c, v) && Did(c, LinkOp(target, dir, nm), addr, c') && addr != 1 && addr !in v.parent
    requires target in v.parent && target in v.inode && v.inode[target] !in v.dirs && v.inode[target] != 0
    requires (dir == 1 || dir in v.parent) && dir in v.inode && v.inode[dir] in v.dirs && 0 !in v.dirs && FreeName(v, dir, nm)
    ensures Shows(c', Space(v.parent[addr := dir], v.inode[addr := v.inode[target]], v.name[addr := nm], v.dirs))
  {
    hide Good, Settled, Appears, Did;
    ShowsFacts(c, v);
    DidGood(c, LinkOp(target, dir, nm), addr, c');
    FreeInCache(c, v, dir, nm);
    LinkDoes(c, target, dir, nm, addr, c');
    ShowsMade(c, v, c', dir, nm, v.inode[target], false, addr);
  }

  lemma UnlinkShown(c: Cache, v: Space, d: Ref, c': Cache)
    requires Shows(c, v) && Did(c, UnlinkOp(d), 0, c') && d in v.parent && d in v.inode && v.inode[d] !in v.dirs && v.inode[d] != 0
    requires var p := v.parent[d]; p == 1 || (p in v.parent && p in v.inode && v.inode[p] != 0)
    ensures Shows(c', Space(v.parent - {d}, v.inode - {d}, v.name - {d}, v.dirs))
  {
    hide Good, Settled, Leaves, Did;
    ShowsFacts(c, v);
    DidGood(c, UnlinkOp(d), 0, c');
    UnlinkDoes(c, d, 0, c');
    ShowsLess(c, v, c', d);
  }

  lemma RmdirShown(c: Cache, v: Space, d: Ref, c': Cache)
    requires Shows(c, v) && Did(c, RmdirOp(d), 0, c') && d in v.parent && d in v.inode && v.inode[d] in v.dirs && v.inode[d] != 0
    requires var p := v.parent[d]; p == 1 || (p in v.parent && p in v.inode && v.inode[p] != 0)
    requires forall x :: x in v.parent ==> v.parent[x] != d
    ensures Shows(c', Space(v.parent - {d}, v.inode - {d}, v.name - {d}, v.dirs))
  {
    hide Good, Settled, Leaves, Did;
    ShowsFacts(c, v);
    DidGood(c, RmdirOp(d), 0, c');
    NoChildren(c, d);
    RmdirDoes(c, d, 0, c');
    IdleGone(c, c', d);
    ShowsLess(c, v, c', d);
  }

  lemma OwnUnbroken(c: Cache, v: Space, op: Op, addr: Ref)
    requires Shows(c, v) && !op.RemoteCreateOp? && (op.UnlinkOp? ==> op.d in v.parent) && (op.RmdirOp? ==> op.d in v.parent)
    ensures !Breaks(c, op, addr)
  {
    hide Good;
  }

  lemma MountedShows()
    ensures Shows(Mounted(1, 1), Space(map[], map[1 := 1], map[1 := "/"], {1}))
  {
    MountedGood(1, 1);
  }

  function OwnOps(): seq<(Op, Ref)> {
    [(CreateOp(1, "d", 7, true), 2), (CreateOp(2, "f", 8, false), 3), (LinkOp(3, 1, "g"), 4), (UnlinkOp(3), 0), (RmdirOp(2), 0),
     (UnlinkOp(4), 0)]
  }

  /** A process makes a directory, a file in it and a second name for the file, and removes all of
      them again: nothing is left, and the unmount goes through. */
  method MadeAndRemoved() returns (done: nat, stopped: bool, left: nat)
    ensures done == 6 && !stopped && left == 0
  {
    hide Good, Did, Breaks, Stuck, Quiet, Leaks;
    var ops := OwnOps();
    var clean, busy;
    ghost var trace;
    done, clean, busy, stopped, left, trace := Session(1, 1, ops);
    OwnRun(ops, done, trace);
  }

  /** With both names in place, with only the second one left, and in the end. */
  lemma OwnRun(ops: seq<(Op, Ref)>, n: nat, trace: seq<Cache>)
    requires ops == OwnOps() && Trace(1, 1, ops, n, trace)
    ensures n == 6 && Quiet(trace[6]) && !Stuck(trace[6])
    ensures Shows(trace[3], Space(map[2 := 1, 3 := 2, 4 := 1], map[1 := 1, 2 := 7, 3 := 8, 4 := 8],
                                  map[1 := "/", 2 := "d", 3 := "f", 4 := "g"], {1, 7}))
    ensures Shows(trace[5], Space(map[4 := 1], map[1 := 1, 4 := 8], map[1 := "/", 4 := "g"], {1, 7}))
    ensures Shows(trace[6], Space(map[], map[1 := 1], map[1 := "/"], {1, 7}))
  {
    hide Good, Did, Stuck, Quiet, Mounted, Shows, Breaks;
    var v0 := Space(map[], map[1 := 1], map[1 := "/"], {1});
    MountedShows();
    OwnUnbroken(trace[0], v0, ops[0].0, ops[0].1);
    CreateShown(trace[0], v0, 1, "d", 7, true, 2, trace[1]);
    var v1 := Space(map[2 := 1], map[1 := 1, 2 := 7], map[1 := "/", 2 := "d"], {1, 7});
    assert {1} + {7} == {1, 7} && map[2 := 1] == v0.parent[2 := 1];
    OwnUnbroken(trace[1], v1, ops[1].0, ops[1].1);
    CreateShown(trace[1], v1, 2, "f", 8, false, 3, trace[2]);
    var v2 := Space(map[2 := 1, 3 := 2], map[1 := 1, 2 := 7, 3 := 8], map[1 := "/", 2 := "d", 3 := "f"], {1, 7});
    assert Shows(trace[2], v2);
    OwnUnbroken(trace[2], v2, ops[2].0, ops[2].1);
    LinkShown(trace[2], v2, 3, 1, "g", 4, trace[3]);
    var v3 := Space(map[2 := 1, 3 := 2, 4 := 1], map[1 := 1, 2 := 7, 3 := 8, 4 := 8],
                    map[1 := "/", 2 := "d", 3 := "f", 4 := "g"], {1, 7});
    assert Shows(trace[3], v3);
    OwnRest(ops, n, trace, v3);
  }

  lemma OwnRest(ops: seq<(Op, Ref)>, n: nat, trace: seq<Cache>, v3: Space)
    requires ops == OwnOps() && Trace(1, 1, ops, n, trace) && n >= 3 && Shows(trace[3], v3)
    requires v3 == Space(map[2 := 1, 3 := 2, 4 := 1], map[1 := 1, 2 := 7, 3 := 8, 4 := 8],
                         map[1 := "/", 2 := "d", 3 := "f", 4 := "g"], {1, 7})
    ensures n == 6 && Quiet(trace[6]) && !Stuck(trace[6])
    ensures Shows(trace[5], Space(map[4 := 1], map[1 := 1, 4 := 8], map[1 := "/", 4 := "g"], {1, 7}))
    ensures Shows(trace[6], Space(map[], map[1 := 1], map[1 := "/"], {1, 7}))
  {
    hide Good, Did, Stuck, Quiet, Mounted, Shows, Breaks;
    OwnUnbroken(trace[3], v3, ops[3].0, ops[3].1);
    UnlinkShown(trace[3], v3, 3, trace[4]);
    var v4 := Space(map[2 := 1, 4 := 1], map[1 := 1, 2 := 7, 4 := 8], map[1 := "/", 2 := "d", 4 := "g"], {1, 7});
    assert Space(v3.parent - {3}, v3.inode - {3}, v3.name - {3}, v3.dirs) == v4;
    OwnUnbroken(trace[4], v4, ops[4].0, ops[4].1);
    RmdirShown(trace[4], v4, 2, trace[5]);
    var v5 := Space(map[4 := 1], map[1 := 1, 4 := 8], map[1 := "/", 4 := "g"], {1, 7});
    assert Space(v4.parent - {2}, v4.inode - {2}, v4.name - {2}, v4.dirs) == v5;
    OwnUnbroken(trace[5], v5, ops[5].0, ops[5].1);
    UnlinkShown(trace[5], v5, 4, trace[6]);
    var v6 := Space(map[], map[1 := 1], map[1 := "/"], {1, 7});
    assert Space(v5.parent - {4}, v5.inode - {4}, v5.name - {4}, v5.dirs) == v6;
    ShownQuiet(trace[6], v6);
  }

  lemma ShownQuiet(c: Cache, v: Space)
    requires Shows(c, v)
    ensures Quiet(c) && !Stuck(c)
  {
    hide Good;
    GoodFacts(c);
    forall d ensures !Stranded(c, d) && !Orphan(c, d) {
      if d in c.s.tree.parent { ShownPlace(c, d); }
      if d in c.pinned && d != 1 { ShownLive(c, d); }
    }
  }

  lemma ShownPlace(c: Cache, d: Ref)
    requires Good(c) && d in c.s.tree.parent
    ensures c.s.tree.parent[d] in c.s.tree.kids
  {
    ParentFacts(c.s.tree, d);
  }

  lemma ShownLive(c: Cache, d: Ref)
    requires Good(c) && d in c.pinned && d != c.s.tree.root && d in c.s.hashed
    ensures c.s.Live(d)
  {
    hide Tree.Valid, Due;
    GoodFacts(c);
  }
}
