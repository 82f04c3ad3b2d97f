/**
 Link counts of inodes across the namespace operations, with the checks the VFS makes around them.
 */
module LinkCounts {

  type Ino = nat

  const ROOT: Ino := 0

  const EPERM: int := -1
  const ENOENT: int := -2
  const EEXIST: int := -17
  const ENOTDIR: int := -20
  const EISDIR: int := -21
  const EINVAL: int := -22
  const ENOSPC: int := -28
  const ENOTEMPTY: int := -39

  /** A name in a directory. */
  datatype Entry = Entry(dir: Ino, name: string)

  type Entries = map<Entry, Ino>

  /** `dead` are the directories with S_DEAD set. */
  datatype Fs = Fs(entries: Entries, nlink: map<Ino, nat>, dirs: set<Ino>, dead: set<Ino>, next: Ino)

  // ---------------------------------------------------------------- what the counts should be

  function Names(e: Entries, i: Ino): set<Entry> { set k | k in e && e[k] == i }

  function Subdirs(e: Entries, dirs: set<Ino>, d: Ino): set<Entry> { set k | k in e && k.dir == d && e[k] in dirs }

  function NameCount(e: Entries, i: Ino): nat { |Names(e, i)| }

  function SubdirCount(e: Entries, dirs: set<Ino>, d: Ino): nat { |Subdirs(e, dirs, d)| }

  predicate Live(e: Entries, d: Ino) { d == ROOT || NameCount(e, d) > 0 }

  /** 2 and one per subdirectory for a live directory, nothing for a removed one, the number of
      names for a file. */
  function Due(e: Entries, dirs: set<Ino>, i: Ino): nat {
    if i !in dirs then NameCount(e, i) else if Live(e, i) then 2 + SubdirCount(e, dirs, i) else 0
  }

  predicate Sound(s: Fs) {
    && ROOT in s.dirs && s.dead <= s.dirs <= s.nlink.Keys && (forall i :: i in s.nlink ==> i < s.next)
    && (forall k :: k in s.entries ==> s.entries[k] in s.nlink && s.entries[k] != ROOT && k.dir in s.dirs && Live(s.entries, k.dir))
    && (forall d :: d in s.dirs ==> NameCount(s.entries, d) <= 1 && (d in s.dead <==> !Live(s.entries, d)))
  }

  predicate Exact(s: Fs) {
    forall i :: i in s.nlink ==> s.nlink[i] == Due(s.entries, s.dirs, i)
  }

  predicate Inv(s: Fs) { Sound(s) && Exact(s) }

  predicate Empty(e: Entries, i: Ino) { forall k :: k in e ==> k.dir != i }

  // ---------------------------------------------------------------- adding and taking away one name

  lemma BoundName(e: Entries, k: Entry, v: Ino, i: Ino)
    requires k !in e
    ensures NameCount(e[k := v], i) == NameCount(e, i) + if v == i then 1 else 0
  {
    assert Names(e[k := v], i) == Names(e, i) + if v == i then {k} else {};
  }

  lemma BoundSubdir(e: Entries, dirs: set<Ino>, k: Entry, v: Ino, i: Ino)
    requires k !in e
    ensures SubdirCount(e[k := v], dirs, i) == SubdirCount(e, dirs, i) + if k.dir == i && v in dirs then 1 else 0
  {
    if k.dir == i && v in dirs {
      assert Subdirs(e[k := v], dirs, i) == Subdirs(e, dirs, i) + {k};
    } else {
      assert Subdirs(e[k := v], dirs, i) == Subdirs(e, dirs, i);
    }
  }

  lemma Bound(e: Entries, dirs: set<Ino>, k: Entry, v: Ino, i: Ino)
    requires k !in e
    ensures NameCount(e[k := v], i) == NameCount(e, i) + if v == i then 1 else 0
    ensures SubdirCount(e[k := v], dirs, i) == SubdirCount(e, dirs, i) + if k.dir == i && v in dirs then 1 else 0
  {
    hide NameCount, SubdirCount;
    BoundName(e, k, v, i);
    BoundSubdir(e, dirs, k, v, i);
  }

  lemma Unbound(e: Entries, dirs: set<Ino>, k: Entry, i: Ino)
    requires k in e
    ensures NameCount(e, i) == NameCount(e - {k}, i) + if e[k] == i then 1 else 0
    ensures SubdirCount(e, dirs, i) == SubdirCount(e - {k}, dirs, i) + if k.dir == i && e[k] in dirs then 1 else 0
  {
    assert (e - {k})[k := e[k]] == e;
    Bound(e - {k}, dirs, k, e[k], i);
  }

  lemma NoSubdirs(e: Entries, dirs: set<Ino>, i: Ino)
    requires Empty(e, i)
    ensures SubdirCount(e, dirs, i) == 0
  {
    assert Subdirs(e, dirs, i) == {};
  }

  lemma Unnamed(e: Entries, i: Ino)
    requires forall k :: k in e ==> e[k] != i
    ensures NameCount(e, i) == 0
  {
    assert Names(e, i) == {};
  }

  /** A new inode that is a directory changes no count, as nothing is it yet. */
  lemma NewKind(e: Entries, dirs: set<Ino>, n: Ino, i: Ino)
    requires forall k :: k in e ==> e[k] != n
    ensures SubdirCount(e, dirs + {n}, i) == SubdirCount(e, dirs, i)
  {
    assert Subdirs(e, dirs + {n}, i) == Subdirs(e, dirs, i);
  }

  // ---------------------------------------------------------------- each operation keeps the counts exact

  /** A new inode under a new name, with the parent counted up for a directory. */
  lemma MadeKeeps(s: Fs, t: Fs, k: Entry, isDir: bool)
    requires Inv(s) && k !in s.entries && k.dir in s.dirs && k.dir !in s.dead
    requires t.entries == s.entries[k := s.next] && t.next == s.next + 1 && t.dead == s.dead
    requires t.dirs == if isDir then s.dirs + {s.next} else s.dirs
    requires t.nlink == if isDir then s.nlink[s.next := 2][k.dir := s.nlink[k.dir] + 1] else s.nlink[s.next := 1]
    ensures Inv(t)
  {
    hide Inv, Sound, Exact, Due;
    forall i ensures NameCount(t.entries, i) == NameCount(s.entries, i) + if s.next == i then 1 else 0 {
      BoundName(s.entries, k, s.next, i);
    }
    InvFacts(s);
    MadeSound(s, t, k, isDir);
    forall i | i in t.nlink ensures t.nlink[i] == Due(t.entries, t.dirs, i) { MadeDue(s, t, k, isDir, i); }
    ExactIntro(t);
  }

  lemma InvFacts(s: Fs)
    requires Inv(s)
    ensures Sound(s) && Exact(s)
  {
  }

  lemma ExactIntro(s: Fs)
    requires Sound(s) && forall i :: i in s.nlink ==> s.nlink[i] == Due(s.entries, s.dirs, i)
    ensures Inv(s)
  {
  }

  lemma MadeSound(s: Fs, t: Fs, k: Entry, isDir: bool)
    requires Sound(s) && k !in s.entries && k.dir in s.dirs && k.dir !in s.dead
    requires t.entries == s.entries[k := s.next] && t.next == s.next + 1 && t.dead == s.dead
    requires t.dirs == if isDir then s.dirs + {s.next} else s.dirs
    requires t.nlink.Keys == s.nlink.Keys + {s.next}
    requires forall i :: NameCount(t.entries, i) == NameCount(s.entries, i) + if s.next == i then 1 else 0
    ensures Sound(t)
  {
    hide NameCount;
    Unnamed(s.entries, s.next);
  }

  lemma MadeDue(s: Fs, t: Fs, k: Entry, isDir: bool, i: Ino)
    requires Sound(s) && Exact(s) && k !in s.entries && k.dir in s.dirs && k.dir !in s.dead && i in t.nlink
    requires t.entries == s.entries[k := s.next] && t.dirs == if isDir then s.dirs + {s.next} else s.dirs
    requires t.nlink == if isDir then s.nlink[s.next := 2][k.dir := s.nlink[k.dir] + 1] else s.nlink[s.next := 1]
    ensures t.nlink[i] == Due(t.entries, t.dirs, i)
  {
    hide NameCount, SubdirCount;
    var n := s.next;
    Unnamed(s.entries, n);
    assert Empty(s.entries, n);
    NoSubdirs(s.entries, s.dirs, n);
    Bound(s.entries, t.dirs, k, n, i);
    NewKind(s.entries, s.dirs, n, i);
  }

  /** Another name for a file. */
  lemma LinkedKeeps(s: Fs, t: Fs, k: Entry, i: Ino)
    requires Inv(s) && k !in s.entries && k.dir in s.dirs && k.dir !in s.dead && i in s.nlink && i !in s.dirs
    requires t == s.(entries := s.entries[k := i], nlink := s.nlink[i := s.nlink[i] + 1])
    ensures Inv(t)
  {
    hide NameCount, SubdirCount;
    forall j
      ensures NameCount(t.entries, j) == NameCount(s.entries, j) + if i == j then 1 else 0
      ensures SubdirCount(t.entries, t.dirs, j) == SubdirCount(s.entries, s.dirs, j)
    {
      Bound(s.entries, s.dirs, k, i, j);
    }
  }

  lemma UnlinkedKeeps(s: Fs, t: Fs, k: Entry)
    requires Inv(s) && k in s.entries && s.entries[k] !in s.dirs && s.nlink[s.entries[k]] > 0
    requires t == s.(entries := s.entries - {k}, nlink := s.nlink[s.entries[k] := s.nlink[s.entries[k]] - 1])
    ensures Inv(t)
  {
    hide NameCount, SubdirCount;
    var i := s.entries[k];
    forall j
      ensures NameCount(s.entries, j) == NameCount(t.entries, j) + if i == j then 1 else 0
      ensures SubdirCount(t.entries, t.dirs, j) == SubdirCount(s.entries, s.dirs, j)
    {
      Unbound(s.entries, s.dirs, k, j);
    }
  }

  /** What is known of a name: its inode has it, and its directory counts it. */
  lemma Counted(s: Fs, k: Entry)
    requires Inv(s) && k in s.entries
    ensures var i := s.entries[k];
            && i in s.nlink && k.dir in s.nlink && NameCount(s.entries, i) >= 1
            && (i !in s.dirs ==> s.nlink[i] >= 1)
            && (i in s.dirs ==> s.nlink[i] >= 2 && s.nlink[k.dir] >= 3 && SubdirCount(s.entries, s.dirs, k.dir) >= 1)
  {
    hide NameCount, SubdirCount;
    var i := s.entries[k];
    Unbound(s.entries, s.dirs, k, i);
    Unbound(s.entries, s.dirs, k, k.dir);
  }

  lemma RemovedDirKeeps(s: Fs, t: Fs, k: Entry)
    requires Inv(s) && k in s.entries && s.entries[k] in s.dirs && Empty(s.entries, s.entries[k])
    requires s.nlink[k.dir] > 0 && t.nlink == s.nlink[s.entries[k] := 0][k.dir := s.nlink[k.dir] - 1]
    requires t == s.(entries := s.entries - {k}, nlink := t.nlink, dead := s.dead + {s.entries[k]})
    ensures Inv(t)
  {
    hide NameCount, SubdirCount;
    var d := s.entries[k];
    forall j
      ensures NameCount(s.entries, j) == NameCount(t.entries, j) + if d == j then 1 else 0
      ensures SubdirCount(s.entries, s.dirs, j) == SubdirCount(t.entries, t.dirs, j) + if k.dir == j then 1 else 0
    {
      Unbound(s.entries, s.dirs, k, j);
    }
  }

  /** What the VFS asks of a rename before it calls the file system, and the check for an empty
      target the file system makes. */
  predicate Renamable(s: Fs, from: Entry, to: Entry) {
    && from in s.entries && to.dir in s.dirs && to.dir !in s.dead
    && (to in s.entries ==>
      && s.entries[to] != s.entries[from] && (s.entries[to] in s.dirs <==> s.entries[from] in s.dirs)
      && Empty(s.entries, s.entries[to]))
  }

  predicate ReplacesDir(s: Fs, from: Entry, to: Entry)
    requires Renamable(s, from, to)
  {
    to in s.entries && s.entries[from] in s.dirs
  }

  /** Link counts after wjfs_rename.  Replacing a directory takes both links of the replaced one
      (`both`), as in the 3.9 source, or only one, as in the 3.29 source. */
  function RenamedLinks(s: Fs, from: Entry, to: Entry, both: bool): map<Ino, nat>
    requires Renamable(s, from, to) && Droppable(s, from, to)
  {
    var isDir := s.entries[from] in s.dirs;
    if to in s.entries then
      var j := s.entries[to];
      if isDir then s.nlink[j := if both then s.nlink[j] - 2 else s.nlink[j] - 1][from.dir := s.nlink[from.dir] - 1]
      else s.nlink[j := s.nlink[j] - 1]
    else if isDir then
      var l := s.nlink[from.dir := s.nlink[from.dir] - 1];
      l[to.dir := l[to.dir] + 1]
    else s.nlink
  }

  /** The counts a rename lowers are high enough. */
  predicate Droppable(s: Fs, from: Entry, to: Entry)
    requires Renamable(s, from, to)
  {
    && from.dir in s.nlink && to.dir in s.nlink
    && (s.entries[from] in s.dirs ==> s.nlink[from.dir] >= 1)
    && (to in s.entries ==>
      && s.entries[to] in s.nlink && s.nlink[s.entries[to]] >= 1 && s.entries[to] != from.dir
      && (s.entries[from] in s.dirs ==> s.nlink[s.entries[to]] == 2))
  }

  lemma RenamableFacts(s: Fs, from: Entry, to: Entry)
    requires Inv(s) && Renamable(s, from, to)
    ensures Droppable(s, from, to)
  {
    hide NameCount, SubdirCount;
    Counted(s, from);
    if to in s.entries {
      Counted(s, to);
      NoSubdirs(s.entries, s.dirs, s.entries[to]);
    }
  }

  function Renamed(s: Fs, from: Entry, to: Entry, both: bool): Fs
    requires Renamable(s, from, to) && Droppable(s, from, to)
  {
    s.(entries := (s.entries - {from})[to := s.entries[from]],
       nlink := RenamedLinks(s, from, to, both),
       dead := if ReplacesDir(s, from, to) then s.dead + {s.entries[to]} else s.dead)
  }

  lemma Moved(e: Entries, dirs: set<Ino>, from: Entry, to: Entry, x: Ino)
    requires from in e && to != from && (to in e ==> (e[to] in dirs <==> e[from] in dirs))
    ensures var f := (e - {from})[to := e[from]];
            && NameCount(f, x) == NameCount(e, x) - (if to in e && e[to] == x then 1 else 0)
            && SubdirCount(f, dirs, x) == SubdirCount(e, dirs, x)
               - (if from.dir == x && e[from] in dirs then 1 else 0)
               + (if to.dir == x && e[from] in dirs && to !in e then 1 else 0)
  {
    hide NameCount, SubdirCount;
    var g := e - {from};
    Unbound(e, dirs, from, x);
    if to in e {
      Unbound(g, dirs, to, x);
      Bound(g - {to}, dirs, to, e[from], x);
      assert (g - {to})[to := e[from]] == g[to := e[from]];
    } else {
      Bound(g, dirs, to, e[from], x);
    }
  }

  /** How the number of names changes: only the replaced inode loses one. */
  lemma RenamedNames(s: Fs, from: Entry, to: Entry, both: bool, x: Ino)
    requires Renamable(s, from, to) && Droppable(s, from, to)
    ensures NameCount(Renamed(s, from, to, both).entries, x)
            == NameCount(s.entries, x) - if to in s.entries && s.entries[to] == x then 1 else 0
  {
    hide NameCount, SubdirCount;
    Moved(s.entries, s.dirs, from, to, x);
  }

  lemma RenamedDirs(s: Fs, from: Entry, to: Entry, both: bool, d: Ino)
    requires Inv(s) && Renamable(s, from, to) && Droppable(s, from, to) && d in s.dirs
    ensures var t := Renamed(s, from, to, both);
            NameCount(t.entries, d) <= 1 && (d in t.dead <==> !Live(t.entries, d))
  {
    hide NameCount, SubdirCount, Empty, Exact;
    RenamedNames(s, from, to, both, d);
    if to in s.entries { Counted(s, to); }
  }

  lemma RenamedEntries(s: Fs, from: Entry, to: Entry, both: bool, k: Entry)
    requires Inv(s) && Renamable(s, from, to) && Droppable(s, from, to) && k in Renamed(s, from, to, both).entries
    ensures var t := Renamed(s, from, to, both);
            t.entries[k] in s.nlink && t.entries[k] != ROOT && k.dir in s.dirs && Live(t.entries, k.dir)
  {
    hide NameCount, SubdirCount, Exact;
    RenamedNames(s, from, to, both, k.dir);
  }

  lemma RenamedSound(s: Fs, from: Entry, to: Entry, both: bool)
    requires Inv(s) && Renamable(s, from, to) && Droppable(s, from, to)
    ensures Sound(Renamed(s, from, to, both))
  {
    hide NameCount, SubdirCount, Live, Exact, Empty;
    var t := Renamed(s, from, to, both);
    forall d | d in s.dirs ensures NameCount(t.entries, d) <= 1 && (d in t.dead <==> !Live(t.entries, d)) {
      RenamedDirs(s, from, to, both, d);
    }
    forall k | k in t.entries
      ensures t.entries[k] in s.nlink && t.entries[k] != ROOT && k.dir in s.dirs && Live(t.entries, k.dir)
    {
      RenamedEntries(s, from, to, both, k);
    }
  }

  lemma RenamedDue(s: Fs, from: Entry, to: Entry, both: bool, x: Ino)
    requires Inv(s) && Renamable(s, from, to) && Droppable(s, from, to) && x in s.nlink
    ensures var t := Renamed(s, from, to, both);
            && t.nlink.Keys == s.nlink.Keys
            && t.nlink[x] == Due(t.entries, t.dirs, x) + if !both && ReplacesDir(s, from, to) && x == s.entries[to] then 1 else 0
  {
    hide NameCount, SubdirCount, Empty;
    Moved(s.entries, s.dirs, from, to, x);
    Counted(s, from);
    if to in s.entries {
      Counted(s, to);
      NoSubdirs(s.entries, s.dirs, s.entries[to]);
      Outside(s.entries, from, s.entries[to]);
    }
  }

  lemma Outside(e: Entries, k: Entry, i: Ino)
    requires Empty(e, i) && k in e
    ensures k.dir != i
  {
  }

  /** The 3.9 rename keeps every count exact.  The 3.29 rename does so exactly when it does not
      replace a directory: the replaced one then stays at one link instead of none. */
  lemma RenamedExact(s: Fs, from: Entry, to: Entry, both: bool)
    requires Inv(s) && Renamable(s, from, to) && Droppable(s, from, to)
    ensures Exact(Renamed(s, from, to, both)) <==> both || !ReplacesDir(s, from, to)
    ensures !both && ReplacesDir(s, from, to) ==> s.entries[to] in s.nlink && RenamedLinks(s, from, to, both)[s.entries[to]] == 1
  {
    hide NameCount, SubdirCount, Empty, Due;
    var t := Renamed(s, from, to, both);
    forall x | x in s.nlink
      ensures t.nlink.Keys == s.nlink.Keys
      ensures t.nlink[x] == Due(t.entries, t.dirs, x) + if !both && ReplacesDir(s, from, to) && x == s.entries[to] then 1 else 0
    {
      RenamedDue(s, from, to, both, x);
    }
    Counted(s, from);
    if ReplacesDir(s, from, to) { Counted(s, to); Gone(s, from, to, both); }
  }

  lemma Gone(s: Fs, from: Entry, to: Entry, both: bool)
    requires Inv(s) && Renamable(s, from, to) && Droppable(s, from, to) && ReplacesDir(s, from, to)
    ensures Due(Renamed(s, from, to, both).entries, s.dirs, s.entries[to]) == 0
  {
    hide SubdirCount, NameCount, Empty;
    Moved(s.entries, s.dirs, from, to, s.entries[to]);
    Counted(s, to);
  }

  /** Two empty directories in the root. */
  function TwoDirs(): Fs {
    Fs(map[Entry(ROOT, "a") := 1, Entry(ROOT, "b") := 2], map[ROOT := 4, 1 := 2, 2 := 2], {ROOT, 1, 2}, {}, 3)
  }

  lemma TwoDirsInv()
    ensures Inv(TwoDirs())
  {
    var s := TwoDirs();
    var a, b := Entry(ROOT, "a"), Entry(ROOT, "b");
    assert Names(s.entries, ROOT) == {} && Names(s.entries, 1) == {a} && Names(s.entries, 2) == {b};
    assert Subdirs(s.entries, s.dirs, ROOT) == {a, b} && Subdirs(s.entries, s.dirs, 1) == {} && Subdirs(s.entries, s.dirs, 2) == {};
  }

  /** Renaming one over the other with the 3.29 source leaves the replaced one with one link. */
  lemma OneLinkStays()
    ensures var s, from, to := TwoDirs(), Entry(ROOT, "a"), Entry(ROOT, "b");
            && Inv(s) && Renamable(s, from, to) && Droppable(s, from, to) && ReplacesDir(s, from, to)
            && !Exact(Renamed(s, from, to, false)) && Renamed(s, from, to, false).nlink[2] == 1
  {
    TwoDirsInv();
    hide Inv, Exact;
    RenamedExact(TwoDirs(), Entry(ROOT, "a"), Entry(ROOT, "b"), false);
  }

  // ---------------------------------------------------------------- the name space stays a tree

  /** Going up `n` names from `d` leads to `a`. */
  ghost predicate Climbs(e: Entries, d: Ino, n: nat, a: Ino)
    decreases n
  {
    if n == 0 then d == a else exists k :: k in e && e[k] == d && Climbs(e, k.dir, n - 1, a)
  }

  /** `a` is `d` or one of the directories above it. */
  ghost predicate AtOrAbove(e: Entries, d: Ino, a: Ino) { exists n: nat :: Climbs(e, d, n, a) }

  /** Every live directory hangs below the root. */
  ghost predicate Rooted(s: Fs) {
    forall d :: d in s.dirs && Live(s.entries, d) ==> AtOrAbove(s.entries, d, ROOT)
  }

  lemma ClimbFrom(e: Entries, k: Entry, a: Ino)
    requires k in e && AtOrAbove(e, k.dir, a)
    ensures AtOrAbove(e, e[k], a)
  {
    var n: nat :| Climbs(e, k.dir, n, a);
    assert Climbs(e, e[k], n + 1, a);
  }

  lemma ClimbNone(e: Entries, d: Ino)
    ensures AtOrAbove(e, d, d)
  {
    assert Climbs(e, d, 0, d);
  }

  /** A directory has one name, so there is one way up. */
  lemma OneWayUp(s: Fs, k: Entry, a: Ino)
    requires Inv(s) && k in s.entries && s.entries[k] in s.dirs
    ensures AtOrAbove(s.entries, s.entries[k], a) <==> s.entries[k] == a || AtOrAbove(s.entries, k.dir, a)
  {
    hide Exact, Live;
    var d := s.entries[k];
    if AtOrAbove(s.entries, k.dir, a) { ClimbFrom(s.entries, k, a); }
    if d == a { ClimbNone(s.entries, d); }
    if AtOrAbove(s.entries, d, a) && d != a {
      var n: nat :| Climbs(s.entries, d, n, a);
      var k' :| k' in s.entries && s.entries[k'] == d && Climbs(s.entries, k'.dir, n - 1, a);
      OneName(s, d, k, k');
    }
  }

  lemma OneName(s: Fs, d: Ino, k: Entry, k': Entry)
    requires Inv(s) && d in s.dirs && k in s.entries && k' in s.entries && s.entries[k] == d == s.entries[k']
    ensures k == k'
  {
    hide Exact, Live;
    assert {k, k'} <= Names(s.entries, d);
    if k != k' { SubsetSize({k, k'}, Names(s.entries, d)); }
  }

  lemma SubsetSize(a: set<Entry>, b: set<Entry>)
    requires a <= b
    ensures |a| <= |b|
  {
    if a != {} {
      var x :| x in a;
      SubsetSize(a - {x}, b - {x});
    }
  }

  /** The way up keeps the names it uses. */
  lemma {:induction false} ClimbsKept(e: Entries, e': Entries, d: Ino, n: nat, a: Ino, gone: set<Ino>)
    requires Climbs(e, d, n, a) && d !in gone
    requires forall k :: k in e && e[k] !in gone ==> k in e' && e'[k] == e[k]
    requires forall k :: k in e ==> k.dir !in gone
    ensures Climbs(e', d, n, a)
    decreases n
  {
    if n > 0 {
      var k :| k in e && e[k] == d && Climbs(e, k.dir, n - 1, a);
      ClimbsKept(e, e', k.dir, n - 1, a, gone);
      assert k in e' && e'[k] == d && Climbs(e', k.dir, n - 1, a);
    }
  }

  /** Names of other inodes may come and go, and empty directories may go. */
  lemma RootedKept(s: Fs, t: Fs, gone: set<Ino>)
    requires Rooted(s) && t.dirs == s.dirs
    requires forall k :: k in s.entries && s.entries[k] !in gone ==> k in t.entries && t.entries[k] == s.entries[k]
    requires forall k :: k in s.entries ==> k.dir !in gone
    requires forall d :: d in s.dirs && Live(t.entries, d) ==> d !in gone && Live(s.entries, d)
    ensures Rooted(t)
  {
    hide Live;
    forall d | d in t.dirs && Live(t.entries, d) ensures AtOrAbove(t.entries, d, ROOT) {
      var n: nat :| Climbs(s.entries, d, n, ROOT);
      ClimbsKept(s.entries, t.entries, d, n, ROOT, gone);
    }
  }

  lemma MadeRooted(s: Fs, t: Fs, k: Entry, isDir: bool)
    requires Inv(s) && Rooted(s) && k !in s.entries && k.dir in s.dirs && k.dir !in s.dead
    requires t.entries == s.entries[k := s.next] && t.dirs == if isDir then s.dirs + {s.next} else s.dirs
    ensures Rooted(t)
  {
    hide NameCount, SubdirCount, Exact;
    forall d | d in t.dirs && Live(t.entries, d) ensures AtOrAbove(t.entries, d, ROOT) {
      var p := if d == s.next then k.dir else d;
      BoundName(s.entries, k, s.next, p);
      var n: nat :| Climbs(s.entries, p, n, ROOT);
      ClimbsKept(s.entries, t.entries, p, n, ROOT, {});
      if d == s.next { ClimbFrom(t.entries, k, ROOT); }
    }
  }

  /** The way up from where `i` goes does not lead through `i`, so it is the same afterwards. */
  lemma {:induction false} ClimbsAside(s: Fs, t: Entries, from: Entry, to: Entry, d: Ino, n: nat)
    requires Inv(s) && Renamable(s, from, to) && t == (s.entries - {from})[to := s.entries[from]]
    requires Climbs(s.entries, d, n, ROOT) && !AtOrAbove(s.entries, d, s.entries[from])
    requires to in s.entries ==> d != s.entries[to]
    ensures Climbs(t, d, n, ROOT)
    decreases n
  {
    hide Inv;
    if n > 0 {
      var k :| k in s.entries && s.entries[k] == d && Climbs(s.entries, k.dir, n - 1, ROOT);
      ClimbNone(s.entries, d);
      if AtOrAbove(s.entries, k.dir, s.entries[from]) { ClimbFrom(s.entries, k, s.entries[from]); }
      if to in s.entries { Outside(s.entries, k, s.entries[to]); }
      ClimbsAside(s, t, from, to, k.dir, n - 1);
      assert k in t && t[k] == d && Climbs(t, k.dir, n - 1, ROOT);
    }
  }

  /** After moving a directory to a place not below itself every directory still hangs below the
      root. */
  lemma {:induction false} ClimbsMoved(s: Fs, t: Entries, from: Entry, to: Entry, d: Ino, n: nat)
    requires Inv(s) && Renamable(s, from, to) && t == (s.entries - {from})[to := s.entries[from]]
    requires s.entries[from] in s.dirs && !AtOrAbove(s.entries, to.dir, s.entries[from]) && AtOrAbove(s.entries, to.dir, ROOT)
    requires Climbs(s.entries, d, n, ROOT) && (to in s.entries ==> d != s.entries[to])
    ensures AtOrAbove(t, d, ROOT)
    decreases n
  {
    hide Inv;
    if d == s.entries[from] {
      var m: nat :| Climbs(s.entries, to.dir, m, ROOT);
      if to in s.entries { Outside(s.entries, to, s.entries[to]); }
      ClimbsAside(s, t, from, to, to.dir, m);
      ClimbFrom(t, to, ROOT);
    } else if n == 0 {
      ClimbNone(t, d);
    } else {
      var k :| k in s.entries && s.entries[k] == d && Climbs(s.entries, k.dir, n - 1, ROOT);
      if to in s.entries { Outside(s.entries, k, s.entries[to]); }
      ClimbsMoved(s, t, from, to, k.dir, n - 1);
      assert k in t && t[k] == d;
      ClimbFrom(t, k, ROOT);
    }
  }

  lemma RenamedRooted(s: Fs, from: Entry, to: Entry)
    requires Inv(s) && Rooted(s) && Renamable(s, from, to) && Droppable(s, from, to)
    requires s.entries[from] in s.dirs ==> !AtOrAbove(s.entries, to.dir, s.entries[from])
    ensures Rooted(Renamed(s, from, to, true))
  {
    hide NameCount, SubdirCount, AtOrAbove, Exact;
    var t := Renamed(s, from, to, true);
    forall d | d in s.dirs && Live(t.entries, d) ensures AtOrAbove(t.entries, d, ROOT) {
      RenamedDirs(s, from, to, true, d);
      RenamedNames(s, from, to, true, d);
      if to in s.entries { Counted(s, to); }
      StaysRooted(s, from, to, d);
    }
  }

  lemma StaysRooted(s: Fs, from: Entry, to: Entry, d: Ino)
    requires Inv(s) && Renamable(s, from, to) && AtOrAbove(s.entries, d, ROOT) && AtOrAbove(s.entries, to.dir, ROOT)
    requires s.entries[from] in s.dirs ==> !AtOrAbove(s.entries, to.dir, s.entries[from])
    requires d in s.dirs && (to in s.entries ==> d != s.entries[to])
    ensures AtOrAbove((s.entries - {from})[to := s.entries[from]], d, ROOT)
  {
    hide Inv;
    var t := (s.entries - {from})[to := s.entries[from]];
    var n: nat :| Climbs(s.entries, d, n, ROOT);
    if s.entries[from] in s.dirs { ClimbsMoved(s, t, from, to, d, n); } else { FilesAside(s, from, to, d, n); }
  }

  lemma {:induction false} FilesAside(s: Fs, from: Entry, to: Entry, d: Ino, n: nat)
    requires Inv(s) && Renamable(s, from, to) && s.entries[from] !in s.dirs && d in s.dirs && Climbs(s.entries, d, n, ROOT)
    ensures Climbs((s.entries - {from})[to := s.entries[from]], d, n, ROOT)
    decreases n
  {
    hide Exact, NameCount, Empty;
    if n > 0 {
      var t := (s.entries - {from})[to := s.entries[from]];
      var k :| k in s.entries && s.entries[k] == d && Climbs(s.entries, k.dir, n - 1, ROOT);
      FilesAside(s, from, to, k.dir, n - 1);
      assert k in t && t[k] == d && Climbs(t, k.dir, n - 1, ROOT);
    }
  }

  // ---------------------------------------------------------------- the operations

  datatype Op =
    | Create(at: Entry, memory: bool) | Mkdir(at: Entry, memory: bool)
    | Unlink(at: Entry) | Rmdir(at: Entry)
    | Link(from: Entry, to: Entry) | Rename(from: Entry, to: Entry)

  class Namespace {
    var s: Fs

    /** A root directory and nothing else. */
    constructor ()
      ensures Sane(s) && s.entries == map[] && s.dirs == {ROOT}
    {
      var none: Entries := map[];
      assert Names(none, ROOT) == {} && Subdirs(none, {ROOT}, ROOT) == {};
      ClimbNone(none, ROOT);
      s := Fs(none, map[ROOT := 2], {ROOT}, {}, ROOT + 1);
    }

    method IncNlink(i: Ino)
      requires i in s.nlink
      modifies this
      ensures s == old(s).(nlink := old(s.nlink)[i := old(s.nlink[i]) + 1])
    {
      s := s.(nlink := s.nlink[i := s.nlink[i] + 1]);
    }

    method DropNlink(i: Ino)
      requires i in s.nlink && s.nlink[i] > 0
      modifies this
      ensures s == old(s).(nlink := old(s.nlink)[i := old(s.nlink[i]) - 1])
    {
      s := s.(nlink := s.nlink[i := s.nlink[i] - 1]);
    }

    /** wjfs_get_inode: one link, and a second one for a directory. */
    method GetInode(isDir: bool) returns (i: Ino)
      modifies this
      ensures i == old(s.next)
      ensures s == old(s).(next := i + 1, nlink := old(s.nlink)[i := if isDir then 2 else 1],
                           dirs := if isDir then old(s.dirs) + {i} else old(s.dirs))
    {
      i := s.next;
      s := s.(next := i + 1, nlink := s.nlink[i := 1]);
      if isDir {
        s := s.(dirs := s.dirs + {i});
        IncNlink(i);
      }
    }

    /** may_create and wjfs_mknod. */
    method Mknod(at: Entry, isDir: bool, memory: bool) returns (ret: int)
      requires Inv(s)
      modifies this
      ensures ret == if at.dir !in old(s.dirs) then ENOTDIR else if at in old(s.entries) then EEXIST
                     else if at.dir in old(s.dead) then ENOENT else if !memory then ENOSPC else 0
      ensures ret != 0 ==> s == old(s)
      ensures ret == 0 ==> s == old(s).(next := old(s.next) + 1, nlink := old(s.nlink)[old(s.next) := if isDir then 2 else 1],
                dirs := if isDir then old(s.dirs) + {old(s.next)} else old(s.dirs), entries := old(s.entries)[at := old(s.next)])
    {
      if at.dir !in s.dirs { return ENOTDIR; }
      if at in s.entries { return EEXIST; }
      if at.dir in s.dead { return ENOENT; }
      if !memory { return ENOSPC; }
      var i := GetInode(isDir);
      s := s.(entries := s.entries[at := i]);
      ret := 0;
    }

    /** wjfs_create and wjfs_mkdir: a new inode under a free name in a live directory. */
    method Make(at: Entry, isDir: bool, memory: bool) returns (ret: int)
      requires Sane(s)
      modifies this
      ensures Happened(old(s), if isDir then Mkdir(at, memory) else Create(at, memory), ret, s)
    {
      hide Inv, Rooted;
      ret := Mknod(at, isDir, memory);
      if ret == 0 {
        DirFacts(old(s), at.dir);
        if isDir { IncNlink(at.dir); }
        MadeKeeps(old(s), s, at, isDir);
        MadeRooted(old(s), s, at, isDir);
      }
    }

    /** may_delete and wjfs_unlink. */
    method Unlink(at: Entry) returns (ret: int)
      requires Sane(s)
      modifies this
      ensures Happened(old(s), Op.Unlink(at), ret, s)
    {
      hide Inv, Rooted;
      if at !in s.entries { return ENOENT; }
      if s.entries[at] in s.dirs { return EISDIR; }
      Counted(s, at);
      DropNlink(s.entries[at]);
      s := s.(entries := s.entries - {at});
      UnlinkedKeeps(old(s), s, at);
      UnlinkedRooted(old(s), s, at);
      ret := 0;
    }

    /** may_delete and wjfs_rmdir.  The removed directory ends with no link. */
    method Rmdir(at: Entry) returns (ret: int)
      requires Sane(s)
      modifies this
      ensures Happened(old(s), Op.Rmdir(at), ret, s)
      ensures ret == 0 ==> old(s.entries)[at] in s.nlink && s.nlink[old(s.entries)[at]] == 0
    {
      hide Inv, Rooted;
      if at !in s.entries { return ENOENT; }
      var d := s.entries[at];
      if d !in s.dirs { return ENOTDIR; }
      if !Empty(s.entries, d) { return ENOTEMPTY; }
      Counted(s, at);
      EmptyLinks(s, at);
      DropNlink(d);
      DropNlink(d);
      DropNlink(at.dir);
      s := s.(entries := s.entries - {at}, dead := s.dead + {d});
      assert s.nlink == old(s.nlink)[d := 0][at.dir := old(s.nlink)[at.dir] - 1];
      RemovedDirKeeps(old(s), s, at);
      RemovedRooted(old(s), s, at);
      ret := 0;
    }

    /** may_create and wjfs_link. */
    method Link(from: Entry, to: Entry) returns (ret: int)
      requires Sane(s)
      modifies this
      ensures Happened(old(s), Op.Link(from, to), ret, s)
    {
      hide Inv, Rooted;
      if from !in s.entries { return ENOENT; }
      if to.dir !in s.dirs { return ENOTDIR; }
      if to in s.entries { return EEXIST; }
      if to.dir in s.dead { return ENOENT; }
      var i := s.entries[from];
      if i in s.dirs { return EPERM; }
      Counted(s, from);
      IncNlink(i);
      s := s.(entries := s.entries[to := i]);
      LinkedKeeps(old(s), s, to, i);
      LinkedRooted(old(s), s, to, i);
      ret := 0;
    }

    /** The walk of d_ancestor: whether `a` is `d` or above it. */
    method IsAtOrAbove(d: Ino, a: Ino) returns (yes: bool)
      requires Sane(s) && d in s.dirs && Live(s.entries, d)
      ensures yes <==> AtOrAbove(s.entries, d, a)
    {
      hide Inv, Live, AtOrAbove, Climbs;
      var x := d;
      ghost var n := HowHigh(s, d);
      while x != a && x != ROOT
        invariant x in s.dirs && Climbs(s.entries, x, n, ROOT)
        invariant AtOrAbove(s.entries, d, a) <==> AtOrAbove(s.entries, x, a)
        decreases n
      {
        ghost var up := NameUp(s, x, n);
        var k :| k in s.entries && s.entries[k] == x;
        OneName(s, x, k, up);
        OneWayUp(s, k, a);
        x, n := k.dir, n - 1;
      }
      yes := x == a;
      ClimbNone(s.entries, a);
      NothingAboveRoot(s, a);
    }

    /** lock_rename, vfs_rename and the 3.9 wjfs_rename. */
    method Rename(from: Entry, to: Entry) returns (ret: int)
      requires Sane(s)
      modifies this
      ensures Happened(old(s), Op.Rename(from, to), ret, s)
    {
      hide Inv, Rooted, AtOrAbove;
      ret := RenameCheck(from, to);
      if ret != 0 || (to in s.entries && s.entries[to] == s.entries[from]) { return; }
      RenamePasses(s, from, to);
      RenamableFacts(s, from, to);
      MoveName(from, to);
      RenamedInv(old(s), from, to);
      RenamedRooted(old(s), from, to);
    }

    /** The checks before wjfs_rename changes anything. */
    method RenameCheck(from: Entry, to: Entry) returns (ret: int)
      requires Sane(s)
      ensures ret == RenameCode(s, from, to)
    {
      hide Inv, Rooted, AtOrAbove, Live;
      if from !in s.entries { return ENOENT; }
      if to.dir !in s.dirs { return ENOTDIR; }
      LiveParent(s, from);
      LiveUnlessDead(s, to.dir);
      var i := s.entries[from];
      var theyAreDirs := i in s.dirs;
      if to.dir !in s.dead {
        if theyAreDirs {
          var below := IsAtOrAbove(to.dir, i);
          if below { return EINVAL; }
        }
        if to in s.entries {
          var above := IsAtOrAbove(from.dir, s.entries[to]);
          if above { return ENOTEMPTY; }
        }
      }
      if to in s.entries && s.entries[to] == i { return 0; }
      if to !in s.entries && to.dir in s.dead { return ENOENT; }
      if to in s.entries && theyAreDirs && s.entries[to] !in s.dirs { return ENOTDIR; }
      if to in s.entries && !theyAreDirs && s.entries[to] in s.dirs { return EISDIR; }
      if to in s.entries && !Empty(s.entries, s.entries[to]) { return ENOTEMPTY; }
      ret := 0;
    }

    /** The body of the 3.9 wjfs_rename, and d_move. */
    method MoveName(from: Entry, to: Entry)
      requires Renamable(s, from, to) && Droppable(s, from, to)
      modifies this
      ensures s == Renamed(old(s), from, to, true)
    {
      var i := s.entries[from];
      var theyAreDirs := i in s.dirs;
      if to in s.entries {
        var target := s.entries[to];
        DropNlink(target);
        if theyAreDirs {
          DropNlink(target);
          DropNlink(from.dir);
          s := s.(dead := s.dead + {target});
        }
      } else if theyAreDirs {
        DropNlink(from.dir);
        IncNlink(to.dir);
      }
      s := s.(entries := (s.entries - {from})[to := i]);
      assert s.nlink == RenamedLinks(old(s), from, to, true);
    }

    /** Every run of the operations: each does what it should in the state the one before left, and
        in every state the link counts are exact and the directories form a tree. */
    method Session(ops: seq<Op>) returns (codes: seq<int>, ghost states: seq<Fs>)
      requires Sane(s)
      modifies this
      ensures |codes| == |ops| && |states| == |ops| + 1 && states[0] == old(s) && states[|ops|] == s
      ensures forall i :: 0 <= i <= |ops| ==> Inv(states[i]) && Rooted(states[i])
      ensures forall i :: 0 <= i < |ops| ==> Happened(states[i], ops[i], codes[i], states[i + 1])
    {
      hide Inv, Rooted, Happened;
      codes, states := [], [s];
      while |codes| < |ops|
        invariant |codes| <= |ops| && |states| == |codes| + 1 && states[0] == old(s) && states[|codes|] == s
        invariant forall i :: 0 <= i < |states| ==> Inv(states[i]) && Rooted(states[i])
        invariant forall i :: 0 <= i < |codes| ==> Happened(states[i], ops[i], codes[i], states[i + 1])
        decreases |ops| - |codes|
      {
        var ret;
        ghost var before := s;
        match ops[|codes|] {
          case Create(at, memory) => ret := Make(at, false, memory);
          case Mkdir(at, memory) => ret := Make(at, true, memory);
          case Unlink(at) => ret := Unlink(at);
          case Rmdir(at) => ret := Rmdir(at);
          case Link(from, to) => ret := Link(from, to);
          case Rename(from, to) => ret := Rename(from, to);
        }
        HappenedSane(before, ops[|codes|], ret, s);
        codes, states := codes + [ret], states + [s];
      }
    }
  }

  /** Link counts are exact and directories form a tree. */
  ghost predicate Sane(s: Fs) { Inv(s) && Rooted(s) }

  /** The return value of an operation. */
  ghost function Code(s: Fs, op: Op): int {
    match op
    case Create(at, memory) => MakeCode(s, at, memory)
    case Mkdir(at, memory) => MakeCode(s, at, memory)
    case Unlink(at) => if at !in s.entries then ENOENT else if s.entries[at] in s.dirs then EISDIR else 0
    case Rmdir(at) =>
      if at !in s.entries then ENOENT else if s.entries[at] !in s.dirs then ENOTDIR
      else if !Empty(s.entries, s.entries[at]) then ENOTEMPTY else 0
    case Link(from, to) =>
      if from !in s.entries then ENOENT else if to.dir !in s.dirs then ENOTDIR else if to in s.entries then EEXIST
      else if to.dir in s.dead then ENOENT else if s.entries[from] in s.dirs then EPERM else 0
    case Rename(from, to) => RenameCode(s, from, to)
  }

  function MakeCode(s: Fs, at: Entry, memory: bool): int {
    if at.dir !in s.dirs then ENOTDIR else if at in s.entries then EEXIST
    else if at.dir in s.dead then ENOENT else if !memory then ENOSPC else 0
  }

  /** The names after an operation that succeeds. */
  function NamesAfter(s: Fs, op: Op): Entries {
    match op
    case Create(at, _) => s.entries[at := s.next]
    case Mkdir(at, _) => s.entries[at := s.next]
    case Unlink(at) => s.entries - {at}
    case Rmdir(at) => s.entries - {at}
    case Link(from, to) => if from in s.entries then s.entries[to := s.entries[from]] else s.entries
    case Rename(from, to) =>
      if from in s.entries && !(to in s.entries && s.entries[to] == s.entries[from])
      then (s.entries - {from})[to := s.entries[from]] else s.entries
  }

  /** The operation returned `ret` and took `s` to `t`: nothing changes on an error, and on success
      exactly the names, and the directories for mkdir.  The link counts and the dead directories
      are then those that `Sane` leaves no choice about. */
  ghost predicate Happened(s: Fs, op: Op, ret: int, t: Fs) {
    && Sane(t) && ret == Code(s, op) && (ret != 0 ==> t == s)
    && (ret == 0 ==>
      && t.entries == NamesAfter(s, op)
      && t.dirs == (if op.Mkdir? then s.dirs + {s.next} else s.dirs)
      && t.next == (if op.Mkdir? || op.Create? then s.next + 1 else s.next)
      && t.nlink.Keys == (if op.Mkdir? || op.Create? then s.nlink.Keys + {s.next} else s.nlink.Keys))
  }

  lemma HappenedSane(s: Fs, op: Op, ret: int, t: Fs)
    requires Happened(s, op, ret, t)
    ensures Inv(t) && Rooted(t)
  {
  }

  lemma UnlinkedRooted(s: Fs, t: Fs, k: Entry)
    requires Inv(s) && Rooted(s) && k in s.entries && s.entries[k] !in s.dirs && t.entries == s.entries - {k} && t.dirs == s.dirs
    ensures Rooted(t)
  {
    hide NameCount, SubdirCount, Exact, Climbs;
    forall d | d in s.dirs && Live(t.entries, d) ensures AtOrAbove(t.entries, d, ROOT) {
      Unbound(s.entries, s.dirs, k, d);
      var n: nat :| Climbs(s.entries, d, n, ROOT);
      DirsOnly(s, t.entries, d, n);
    }
  }

  lemma LinkedRooted(s: Fs, t: Fs, k: Entry, i: Ino)
    requires Inv(s) && Rooted(s) && k !in s.entries && i !in s.dirs && t.entries == s.entries[k := i] && t.dirs == s.dirs
    ensures Rooted(t)
  {
    hide NameCount, SubdirCount, Exact, Climbs;
    forall d | d in s.dirs && Live(t.entries, d) ensures AtOrAbove(t.entries, d, ROOT) {
      BoundName(s.entries, k, i, d);
      var n: nat :| Climbs(s.entries, d, n, ROOT);
      DirsOnly(s, t.entries, d, n);
    }
  }

  /** The way up uses names of directories only. */
  lemma {:induction false} DirsOnly(s: Fs, e: Entries, d: Ino, n: nat)
    requires Inv(s) && d in s.dirs && Climbs(s.entries, d, n, ROOT)
    requires forall k :: k in s.entries && s.entries[k] in s.dirs ==> k in e && e[k] == s.entries[k]
    ensures Climbs(e, d, n, ROOT)
    decreases n
  {
    hide Exact, NameCount;
    if n > 0 {
      var k :| k in s.entries && s.entries[k] == d && Climbs(s.entries, k.dir, n - 1, ROOT);
      DirsOnly(s, e, k.dir, n - 1);
      assert k in e && e[k] == d && Climbs(e, k.dir, n - 1, ROOT);
    }
  }

  lemma RemovedRooted(s: Fs, t: Fs, k: Entry)
    requires Inv(s) && Rooted(s) && k in s.entries && s.entries[k] in s.dirs && Empty(s.entries, s.entries[k])
    requires t.entries == s.entries - {k} && t.dirs == s.dirs
    ensures Rooted(t)
  {
    hide NameCount, SubdirCount, Exact, Climbs;
    forall d | d in s.dirs && Live(t.entries, d) ensures d != s.entries[k] && Live(s.entries, d) {
      Unbound(s.entries, s.dirs, k, d);
    }
    RootedKept(s, t, {s.entries[k]});
  }

  lemma HowHigh(s: Fs, d: Ino) returns (n: nat)
    requires Rooted(s) && d in s.dirs && Live(s.entries, d)
    ensures Climbs(s.entries, d, n, ROOT)
  {
    hide Climbs;
    n :| Climbs(s.entries, d, n, ROOT);
  }

  lemma NameUp(s: Fs, x: Ino, n: nat) returns (k: Entry)
    requires Inv(s) && Climbs(s.entries, x, n, ROOT) && x != ROOT
    ensures n > 0 && k in s.entries && s.entries[k] == x && Climbs(s.entries, k.dir, n - 1, ROOT) && k.dir in s.dirs
  {
    hide Exact, Live;
    k :| k in s.entries && s.entries[k] == x && Climbs(s.entries, k.dir, n - 1, ROOT);
  }

  lemma NothingAboveRoot(s: Fs, a: Ino)
    requires Inv(s)
    ensures AtOrAbove(s.entries, ROOT, a) <==> a == ROOT
  {
    hide Exact, Live;
    if a == ROOT { ClimbNone(s.entries, a); }
  }

  lemma LiveUnlessDead(s: Fs, d: Ino)
    requires Inv(s) && d in s.dirs
    ensures d !in s.dead <==> Live(s.entries, d)
  {
  }

  lemma RenamePasses(s: Fs, from: Entry, to: Entry)
    requires Sane(s) && RenameCode(s, from, to) == 0 && !(to in s.entries && s.entries[to] == s.entries[from])
    ensures Renamable(s, from, to)
    ensures s.entries[from] in s.dirs ==> !AtOrAbove(s.entries, to.dir, s.entries[from])
  {
    hide Rooted, AtOrAbove, Exact;
    if to in s.entries { LiveParent(s, to); }
  }

  /** The checks of sys_renameat and vfs_rename in their order, and the one of wjfs_rename. */
  ghost function RenameCode(s: Fs, from: Entry, to: Entry): int {
    if from !in s.entries then ENOENT
    else if to.dir !in s.dirs then ENOTDIR
    else if to.dir !in s.dead && s.entries[from] in s.dirs && AtOrAbove(s.entries, to.dir, s.entries[from]) then EINVAL
    else if to.dir !in s.dead && to in s.entries && AtOrAbove(s.entries, from.dir, s.entries[to]) then ENOTEMPTY
    else if to !in s.entries then (if to.dir in s.dead then ENOENT else 0)
    else if s.entries[to] == s.entries[from] then 0
    else if s.entries[from] in s.dirs && s.entries[to] !in s.dirs then ENOTDIR
    else if s.entries[from] !in s.dirs && s.entries[to] in s.dirs then EISDIR
    else if !Empty(s.entries, s.entries[to]) then ENOTEMPTY else 0
  }

  lemma DirFacts(s: Fs, d: Ino)
    requires Inv(s) && d in s.dirs
    ensures d in s.nlink && d != s.next
  {
  }

  /** An empty directory has its two links, and is not its own parent. */
  lemma EmptyLinks(s: Fs, at: Entry)
    requires Inv(s) && at in s.entries && s.entries[at] in s.dirs && Empty(s.entries, s.entries[at])
    ensures s.entries[at] in s.nlink && s.nlink[s.entries[at]] == 2 && at.dir != s.entries[at]
  {
    hide NameCount, SubdirCount;
    Counted(s, at);
    NoSubdirs(s.entries, s.dirs, s.entries[at]);
  }

  lemma LiveParent(s: Fs, at: Entry)
    requires Inv(s) && at in s.entries
    ensures at.dir in s.dirs && at.dir !in s.dead && Live(s.entries, at.dir)
  {
  }

  lemma RenamedInv(s: Fs, from: Entry, to: Entry)
    requires Inv(s) && Renamable(s, from, to) && Droppable(s, from, to)
    ensures Inv(Renamed(s, from, to, true))
  {
    RenamedSound(s, from, to, true);
    RenamedExact(s, from, to, true);
  }

  // ---------------------------------------------------------------- when an operation succeeds, and what it does

  /** No name but those in `but` differs. */
  ghost predicate OtherNames(s: Fs, t: Fs, but: set<Entry>) {
    forall k :: k !in but ==> (k in t.entries <==> k in s.entries) && (k in s.entries ==> t.entries[k] == s.entries[k])
  }

  predicate LiveDir(s: Fs, d: Ino) { d in s.dirs && d !in s.dead }

  /** create and mkdir succeed exactly under a free name in a live directory with memory left, and give
      that name a new inode of that kind. */
  lemma MakeSucceeds(s: Fs, at: Entry, isDir: bool, memory: bool, ret: int, t: Fs)
    requires Sane(s) && Happened(s, if isDir then Mkdir(at, memory) else Create(at, memory), ret, t)
    ensures ret == 0 <==> LiveDir(s, at.dir) && at !in s.entries && memory
    ensures if ret != 0 then t == s else
              && at in t.entries && t.entries[at] !in s.nlink && t.entries[at] in t.nlink && OtherNames(s, t, {at})
              && (forall i :: i in t.dirs <==> i in s.dirs || (isDir && i == t.entries[at]))
              && (forall i :: i in t.nlink <==> i in s.nlink || i == t.entries[at])
              && t.nlink[t.entries[at]] == if isDir then 2 else 1
  {
    hide NameCount, SubdirCount, Rooted, Live;
    if ret == 0 { NewLinks(s, at, isDir, t); }
  }

  lemma NewLinks(s: Fs, at: Entry, isDir: bool, t: Fs)
    requires Inv(s) && Inv(t) && at !in s.entries && t.entries == s.entries[at := s.next] && s.next in t.nlink
    requires (s.next in t.dirs <==> isDir) && at.dir in s.dirs
    ensures t.nlink[s.next] == if isDir then 2 else 1
  {
    hide NameCount, SubdirCount;
    Unnamed(s.entries, s.next);
    Bound(s.entries, t.dirs, at, s.next, s.next);
    assert Empty(s.entries, s.next);
    NoSubdirs(s.entries, t.dirs, s.next);
  }

  /** unlink succeeds exactly for a name of a file, and takes that name away. */
  lemma UnlinkSucceeds(s: Fs, at: Entry, ret: int, t: Fs)
    requires Sane(s) && Happened(s, Op.Unlink(at), ret, t)
    ensures ret == 0 <==> at in s.entries && s.entries[at] !in s.dirs
    ensures if ret != 0 then t == s else at !in t.entries && OtherNames(s, t, {at}) && t.dirs == s.dirs && t.nlink.Keys == s.nlink.Keys
  {
    hide Inv, Rooted;
  }

  /** rmdir succeeds exactly for a name of a directory in which there is no name, and takes that name
      away; the directory is dead and has no link. */
  lemma RmdirSucceeds(s: Fs, at: Entry, ret: int, t: Fs)
    requires Sane(s) && Happened(s, Op.Rmdir(at), ret, t)
    ensures ret == 0 <==> at in s.entries && s.entries[at] in s.dirs && forall k :: k in s.entries ==> k.dir != s.entries[at]
    ensures if ret != 0 then t == s else
              && at !in t.entries && OtherNames(s, t, {at}) && t.dirs == s.dirs && t.nlink.Keys == s.nlink.Keys
              && s.entries[at] in t.dead && s.entries[at] in t.nlink && t.nlink[s.entries[at]] == 0
  {
    hide NameCount, SubdirCount, Rooted;
    if ret == 0 {
      Counted(s, at);
      Unbound(s.entries, s.dirs, at, s.entries[at]);
      NotRoot(s, at);
    }
  }

  lemma NotRoot(s: Fs, at: Entry)
    requires Inv(s) && at in s.entries
    ensures s.entries[at] != ROOT
  {
  }

  /** link succeeds exactly for a file, under a free name in a live directory, and gives the file that
      name besides the ones it has. */
  lemma LinkSucceeds(s: Fs, from: Entry, to: Entry, ret: int, t: Fs)
    requires Sane(s) && Happened(s, Op.Link(from, to), ret, t)
    ensures ret == 0 <==> from in s.entries && s.entries[from] !in s.dirs && LiveDir(s, to.dir) && to !in s.entries
    ensures if ret != 0 then t == s else
              && to in t.entries && t.entries[to] == s.entries[from] && OtherNames(s, t, {to}) && from in t.entries
              && t.dirs == s.dirs && t.nlink.Keys == s.nlink.Keys
  {
    hide Inv, Rooted;
  }

  /** A rename into a live directory that is not the moved directory or below it, and, if the new name
      is in use, for the inode it already names, a file in place of a file, or a directory in place
      of one without names; never in place of a directory above the old name. */
  ghost predicate MayMove(s: Fs, from: Entry, to: Entry) {
    && from in s.entries && LiveDir(s, to.dir)
    && (s.entries[from] in s.dirs ==> !AtOrAbove(s.entries, to.dir, s.entries[from]))
    && (to in s.entries ==>
      && !AtOrAbove(s.entries, from.dir, s.entries[to])
      && (s.entries[to] == s.entries[from] ||
          ((s.entries[to] in s.dirs <==> s.entries[from] in s.dirs) && forall k :: k in s.entries ==> k.dir != s.entries[to])))
  }

  /** rename succeeds exactly then.  Unless both names are the same inode's, the new name is then the
      moved inode's, the old one is nobody's, and no other name differs. */
  lemma RenameSucceeds(s: Fs, from: Entry, to: Entry, ret: int, t: Fs)
    requires Sane(s) && Happened(s, Op.Rename(from, to), ret, t)
    ensures ret == 0 <==> MayMove(s, from, to)
    ensures ret != 0 || (to in s.entries && s.entries[to] == s.entries[from]) ==> t.entries == s.entries
    ensures ret == 0 && !(to in s.entries && s.entries[to] == s.entries[from]) ==>
              to in t.entries && t.entries[to] == s.entries[from] && from !in t.entries && OtherNames(s, t, {from, to})
    ensures t.dirs == s.dirs && t.nlink.Keys == s.nlink.Keys
  {
    hide Inv, Rooted, AtOrAbove, MayMove, RenameCode;
    MovesIff(s, from, to);
    if ret == 0 { NamesMoved(s, from, to); }
  }

  lemma MovesIff(s: Fs, from: Entry, to: Entry)
    requires Sane(s)
    ensures RenameCode(s, from, to) == 0 <==> MayMove(s, from, to)
  {
    hide Inv, Rooted, AtOrAbove;
    if to in s.entries { LiveParent(s, to); }
  }

  lemma NamesMoved(s: Fs, from: Entry, to: Entry)
    requires Sane(s) && RenameCode(s, from, to) == 0
    ensures from in s.entries && var e := NamesAfter(s, Op.Rename(from, to));
            if to in s.entries && s.entries[to] == s.entries[from] then e == s.entries
            else to in e && e[to] == s.entries[from] && from != to && from !in e
  {
    hide Inv, Rooted, AtOrAbove;
  }

  /** What refusals say: no such entry, not a directory, a directory, in use, not permitted, not empty
      or no space, in the order of the checks. */
  lemma Refusals(s: Fs, op: Op, ret: int, t: Fs)
    requires Happened(s, op, ret, t)
    ensures op.Create? ==> ret == if op.at.dir !in s.dirs then -20 else if op.at in s.entries then -17
                                  else if op.at.dir in s.dead then -2 else if !op.memory then -28 else 0
    ensures op.Mkdir? ==> ret == if op.at.dir !in s.dirs then -20 else if op.at in s.entries then -17
                                 else if op.at.dir in s.dead then -2 else if !op.memory then -28 else 0
    ensures op.Unlink? ==> ret == if op.at !in s.entries then -2 else if s.entries[op.at] in s.dirs then -21 else 0
    ensures op.Rmdir? && op.at !in s.entries ==> ret == -2
    ensures op.Rmdir? && op.at in s.entries && s.entries[op.at] !in s.dirs ==> ret == -20
    ensures op.Rmdir? && op.at in s.entries && s.entries[op.at] in s.dirs && (exists k :: k in s.entries && k.dir == s.entries[op.at]) ==>
              ret == -39
    ensures op.Link? ==> ret == if op.from !in s.entries then -2 else if op.to.dir !in s.dirs then -20 else if op.to in s.entries then -17
                                else if op.to.dir in s.dead then -2 else if s.entries[op.from] in s.dirs then -1 else 0
  {
    hide Inv, Rooted;
  }

  /** What a rename that is refused says: the names must exist, the directories must be directories,
      nothing moves below itself, and only like replaces like. */
  lemma RenameRefuses(s: Fs, from: Entry, to: Entry, ret: int, t: Fs)
    requires Sane(s) && Happened(s, Op.Rename(from, to), ret, t)
    ensures from !in s.entries ==> ret == -2
    ensures from in s.entries && to.dir !in s.dirs ==> ret == -20
    ensures from in s.entries && LiveDir(s, to.dir) && s.entries[from] in s.dirs && AtOrAbove(s.entries, to.dir, s.entries[from])
            ==> ret == -22
    ensures from in s.entries && to.dir in s.dead ==> ret == -2
    ensures from in s.entries && to in s.entries ==>
              var i, j := s.entries[from], s.entries[to];
              && (i in s.dirs && j !in s.dirs && !AtOrAbove(s.entries, to.dir, i) ==> ret == -20)
              && (i !in s.dirs && j in s.dirs && !AtOrAbove(s.entries, from.dir, j) ==> ret == -21)
              && (i in s.dirs && j in s.dirs && i != j && !AtOrAbove(s.entries, to.dir, i) && !Empty(s.entries, j) ==> ret == -39)
  {
    hide Rooted, Exact;
    if from in s.entries { LiveParent(s, from); NotRoot(s, from); }
    if to in s.entries { LiveParent(s, to); NotRoot(s, to); }
    if from in s.entries && to in s.entries && s.entries[to] !in s.dirs { FileAbove(s, from, s.entries[to]); }
  }

  /** Only directories are above anything. */
  lemma FileAbove(s: Fs, k: Entry, i: Ino)
    requires Inv(s) && k in s.entries && i !in s.dirs
    ensures !AtOrAbove(s.entries, k.dir, i)
  {
    LiveParent(s, k);
    forall n: nat ensures !Climbs(s.entries, k.dir, n, i) { NeverClimbs(s, k.dir, n, i); }
  }

  lemma {:induction false} NeverClimbs(s: Fs, d: Ino, n: nat, i: Ino)
    requires Inv(s) && d in s.dirs && i !in s.dirs
    ensures !Climbs(s.entries, d, n, i)
    decreases n
  {
    hide NameCount, Exact, Live;
    if n > 0 {
      forall k | k in s.entries && s.entries[k] == d ensures !Climbs(s.entries, k.dir, n - 1, i) { NeverClimbs(s, k.dir, n - 1, i); }
    }
  }
}
