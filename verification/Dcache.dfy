/**
 The dentry cache of one mounted wjfs: the reference counts that creating and removing
 entries keep, and the two walks that unmounting makes over them.
 */
module Dcaches {
  import opened Trees
  import opened GenocideWalk
  import opened UmountTeardown
  import opened RefCounts
  import opened Stores
  import opened CacheRuns

  class Dcache {
    var s: Store
    var pinned: set<Ref>     // entries whose creation took a reference not yet given back
    var refs: map<Ref, nat>  // references held by callers: lookups under way, open files
    var foreign: set<nat>    // inode numbers in the mapping table

    // -------------------------------------------------------------- wjfs_d_genocide

    /** The walk of wjfs_d_genocide: every live entry below the root that is reached through
        live entries loses exactly one reference, and nothing else changes. */
    method Genocide()
      requires s.Wired()
      modifies this`s
      ensures s.Wired() && s == old(s).(count := s.count)
      ensures forall d :: d in s.tree.kids ==>
                s.count[d] == old(s.count[d]) - if d != s.tree.root && Reach(s.tree, old(s.LiveSet()), d) then 1 else 0
    {
      hide Tracks, Pending, Moves, Reach, Tree.Valid, Tree.Idx;
      var t := s.tree;
      ghost var live := s.LiveSet();
      ghost var goal := Start(t, live, s.count);
      var thisParent, next: nat := t.root, 0;
      while true
        invariant s == old(s).(count := s.count) && s.count.Keys == t.kids.Keys
        invariant thisParent in t.kids && next <= |t.kids[thisParent]|
        invariant Tracks(t, live, goal, s.count, thisParent, next)
        decreases Moves(t, thisParent, next)
      {
        if next < |t.kids[thisParent]| {
          var dentry := t.kids[thisParent][next];
          ChildFacts(t, thisParent, next);
          if dentry !in s.hashed || s.inode[dentry] == 0 {
            Skip(t, live, goal, s.count, thisParent, next);
            next := next + 1;
          } else if |t.kids[dentry]| != 0 {
            Enter(t, live, goal, s.count, thisParent, next);
            thisParent, next := dentry, 0;
          } else {
            DropLeaf(t, live, goal, s.count, thisParent, next);
            s := s.(count := s.count[dentry := s.count[dentry] - 1]);
            next := next + 1;
          }
        } else if thisParent != t.root {
          Leave(t, live, goal, s.count, thisParent, next);
          var i := Position(t, thisParent);
          s := s.(count := s.count[thisParent := s.count[thisParent] - 1]);
          thisParent, next := t.parent[thisParent], i + 1;
        } else {
          break;
        }
      }
      Landed(t, live, goal, old(s.count), s.count, next);
    }

    // -------------------------------------------------------------- umount teardown

    ghost predicate Shrinks(s0: Store, cur: Ref, log: seq<Ref>)
      reads this`s
    {
      s.Wired() && cur in s.tree.kids && Shrinking(s0.tree, s0.count, s.tree, s.count, s.hashed, cur, log)
    }

    /** One step of the descent: the children are unhashed, and the first one is next. */
    method StepDown(dentry: Ref, ghost s0: Store, ghost log: seq<Ref>) returns (c: Ref)
      requires Shrinks(s0, dentry, log) && s.tree.kids[dentry] != []
      modifies this`s
      ensures Shrinks(s0, c, log) && s == old(s).(hashed := s.hashed)
      ensures dentry in s.tree.depth && c in s.tree.depth && s.tree.depth[dentry] < s.tree.depth[c] <= s.tree.bound
    {
      hide Shrinking, Tree.Valid;
      s := s.(hashed := s.hashed - set x | x in s.tree.kids[dentry]);
      ShrinkDown(s0.tree, s0.count, s.tree, s.count, old(s.hashed), dentry, log, s.hashed);
      ChildFacts(s.tree, dentry, 0);
      c := s.tree.kids[dentry][0];
    }

    method DescendToLeaf(from: Ref, ghost s0: Store, ghost log: seq<Ref>) returns (dentry: Ref)
      requires Shrinks(s0, from, log)
      modifies this`s
      ensures Shrinks(s0, dentry, log) && s.tree.kids[dentry] == [] && s == old(s).(hashed := s.hashed)
    {
      hide Shrinking;
      dentry := from;
      while s.tree.kids[dentry] != []
        invariant Shrinks(s0, dentry, log) && s == old(s).(hashed := s.hashed)
        decreases s.tree.bound - s.tree.depth[dentry]
      {
        dentry := StepDown(dentry, s0, log);
      }
    }

    /** A childless entry gives back its reference on the parent, leaves the parent's list, and
        is freed. */
    method FreeLeaf(dentry: Ref, ghost s0: Store, ghost log: seq<Ref>) returns (p: Ref)
      requires Shrinks(s0, dentry, log) && s.tree.kids[dentry] == [] && s.count[dentry] == 0 && dentry != s.tree.root
      modifies this`s
      ensures Shrinks(s0, p, log + [dentry]) && Dropped(s.tree, s.hashed, p) && s.tree.root == old(s.tree.root)
      ensures s.tree.kids.Keys == old(s.tree.kids.Keys) - {dentry}
    {
      hide Shrinking, Tree.Valid;
      ghost var t := s.tree;
      ShrinkDue(s0.tree, s0.count, t, s.count, s.hashed, dentry, log);
      ShrinkFree(s0.tree, s0.count, t, s.count, s.hashed, dentry, log);
      FreeWired(s, dentry, 0);
      p := s.tree.parent[dentry];
      s := s.(count := s.count[p := s.count[p] - 1]).Free(dentry, 0);
      assert s.hashed == old(s.hashed);
      ShrinkShape(s0.tree, s0.count, s.tree, s.count, s.hashed, p, log + [dentry]);
    }

    /** The teardown stopped before an entry still in use, or it freed everything. */
    ghost predicate Outcome(s0: Store, bug: bool, log: seq<Ref>)
      requires s0.Wired()
      reads this`s
    {
      && log <= Teardown(s0.tree)
      && (forall x :: x in log ==> x in s0.tree.kids && s0.count[x] == |s0.tree.kids[x]|)
      && if !bug then log == Teardown(s0.tree) && s.tree.kids == map[] && s.hashed == {}
         else |log| < |Teardown(s0.tree)| && var x := Teardown(s0.tree)[|log|];
              x in s0.tree.kids && s0.count[x] != |s0.tree.kids[x]|
    }

    /** Consume entries from a leaf up through its parents until one has children left. */
    method ConsumeUpwards(leaf: Ref, n: nat, ghost s0: Store, ghost before: seq<Ref>)
      returns (done: bool, bug: bool, dentry: Ref, detached: nat, ghost log: seq<Ref>)
      requires Shrinks(s0, leaf, before) && s.tree.kids[leaf] == [] && s0.Wired() && n == |before|
      modifies this`s
      ensures detached == |log|
      ensures done ==> Outcome(s0, bug, log)
      ensures !done ==> Shrinks(s0, dentry, log) && s.tree.kids[dentry] != [] && Dropped(s.tree, s.hashed, dentry)
      ensures !done ==> s.tree.kids.Keys < old(s.tree.kids.Keys)
    {
      hide Shrinking, Teardown, Tree.Valid;
      done, bug, dentry, detached, log := false, false, leaf, n, before;
      while true
        invariant Shrinks(s0, dentry, log) && s.tree.kids[dentry] == [] && detached == |log|
        invariant s.tree.kids.Keys <= old(s.tree.kids.Keys)
        decreases s.tree.kids.Keys
      {
        ShrinkDue(s0.tree, s0.count, s.tree, s.count, s.hashed, dentry, log);
        if s.count[dentry] != 0 {
          done, bug := true, true;
          return;
        }
        if dentry == s.tree.root {
          s := s.(tree := s.tree.(kids := map[]), count := map[], inode := map[], name := map[]);
          done, detached, log := true, detached + 1, log + [dentry];
          return;
        }
        var p := FreeLeaf(dentry, s0, log);
        detached, log, dentry := detached + 1, log + [dentry], p;
        if s.tree.kids[dentry] != [] { return; }
      }
    }

    /** wjfs_shrink_dcache_for_umount_subtree: frees the entries in teardown order and counts
        them.  It stops with the "still in use" BUG at the first entry whose count was not its
        number of children; otherwise nothing is left. */
    method ShrinkSubtree() returns (bug: bool, detached: nat, ghost log: seq<Ref>)
      requires s.Wired()
      modifies this`s
      ensures detached == |log| && Outcome(old(s), bug, log)
    {
      hide Shrinking, Outcome, Tree.Valid;
      ghost var s0 := s;
      RootFacts(s.tree);
      var dentry := s.tree.root;
      bug, detached, log := false, 0, [];
      s := s.(hashed := s.hashed - {dentry});
      ShrinkStart(s.tree, s.count, s.hashed);
      while true
        invariant Shrinks(s0, dentry, log) && detached == |log|
        decreases s.tree.kids.Keys
      {
        dentry := DescendToLeaf(dentry, s0, log);
        var done;
        done, bug, dentry, detached, log := ConsumeUpwards(dentry, detached, s0, log);
        if done { return; }
        ShrinkDown(s0.tree, s0.count, s.tree, s.count, s.hashed, dentry, log, s.hashed);
        ChildFacts(s.tree, dentry, 0);
        dentry := s.tree.kids[dentry][0];
      }
    }

    // -------------------------------------------------------------- reference counts

    ghost function View(): Cache
      reads this
    {
      Cache(s, pinned, refs, foreign)
    }

    ghost predicate Valid()
      reads this
    {
      Good(View())
    }

    /** The counts are right but for the entries owed a dput. */
    ghost predicate Owing(owed: set<Ref>)
      reads this
    {
      s.Wired() && Due(s.tree, s.count, pinned, refs, owed) && Sane(s, pinned, foreign)
    }

    /** wjfs_fill_super: a root directory held by the superblock. */
    constructor (root: Ref, ino: nat)
      requires ino != 0
      ensures Valid() && View() == Mounted(root, ino)
    {
      s := Mounted(root, ino).s;
      pinned, refs, foreign := {root}, map[root := 0], {};
      new;
      MountedGood(root, ino);
    }

    /** d_kill on an entry at its last reference, after __d_drop. */
    method Kill(x: Ref) returns (p: Ref)
      requires Owing({x}) && s.count[x] == 1
      modifies this`s, this`refs
      ensures Owing({p}) && s.tree.kids.Keys == old(s.tree.kids.Keys) - {x} && p in s.tree.kids
      ensures Kept(old(s), old(refs), s, refs, pinned)
    {
      hide Tree.Valid, Due, Sane, Kept, LiveOf;
      DueFacts(s.tree, s.count, pinned, refs, {x});
      PutLast(s.tree, s.count, pinned, refs, x);
      var i := Position(s.tree, x);
      FreeWired(s, x, i);
      FreeKept(s, refs, pinned, x, i);
      p := s.tree.parent[x];
      s := s.Free(x, i);
      refs := refs - {x};
      SaneKept(old(s), old(refs), s, refs, pinned, foreign);
    }

    /** dput on an entry owed a decrement: an entry whose last reference goes is unhashed and
        freed (d_delete says so for every wjfs entry), and then its parent is put in turn. */
    method Release(d: Ref)
      requires Owing({d})
      modifies this`s, this`refs
      ensures Valid() && Kept(old(s), old(refs), s, refs, pinned)
      ensures d in old(s.count)
      ensures if old(s.count[d]) == 1 then d !in s.tree.kids else s == old(s).(count := s.count) && refs == old(refs)
    {
      hide Tree.Valid, Due, Sane, Kept, LiveOf;
      var cur := d;
      DueFacts(s.tree, s.count, pinned, refs, {d});
      KeptSelf(s, refs, pinned);
      while true
        invariant Owing({cur}) && Kept(old(s), old(refs), s, refs, pinned)
        invariant if cur == d then s == old(s) && refs == old(refs) else d !in s.tree.kids && old(s.count[d]) == 1
        decreases s.tree.kids.Keys
      {
        ghost var before, had := s, refs;
        DueFacts(s.tree, s.count, pinned, refs, {cur});
        if s.count[cur] > 1 {
          PutEarlier(s.tree, s.count, pinned, refs, cur);
          s := s.(count := s.count[cur := s.count[cur] - 1]);
          SaneAnyCount(before, pinned, foreign, s.count);
          KeptAnyCount(old(s), old(refs), before, refs, pinned, s.count);
          assert Owing({});
          return;
        }
        cur := Kill(cur);
        KeptChain(old(s), old(refs), before, had, s, refs, pinned);
      }
    }

    /** A caller gives back a reference. */
    method Put(d: Ref)
      requires Valid() && d in refs && refs[d] > 0
      modifies this`s, this`refs
      ensures Valid() && d in old(s.count) && Kept(old(s), old(refs)[d := old(refs[d]) - 1], s, refs, pinned)
      ensures if old(s.count[d]) == 1 then d !in s.tree.kids
              else s == old(s).(count := s.count) && refs == old(refs)[d := old(refs[d]) - 1]
    {
      hide Tree.Valid, Due, Sane, Kept, LiveOf;
      RefOwed(s.tree, s.count, pinned, refs, d);
      refs := refs[d := refs[d] - 1];
      Release(d);
    }

    /** A caller takes a reference: dget. */
    method Get(d: Ref)
      requires Valid() && d in s.tree.kids
      modifies this`s, this`refs
      ensures Valid() && d in old(s.count) && d in old(refs)
      ensures s == old(s).(count := old(s.count)[d := old(s.count[d]) + 1]) && refs == old(refs)[d := old(refs[d]) + 1]
    {
      hide Tree.Valid, Due, Sane, LiveOf;
      DueFacts(s.tree, s.count, pinned, refs, {});
      RefTaken(s.tree, s.count, pinned, refs, d);
      s := s.(count := s.count[d := s.count[d] + 1]);
      refs := refs[d := refs[d] + 1];
      SaneAnyCount(old(s), pinned, foreign, s.count);
    }

    /** The search of __d_lookup: the one hashed child of that name, or there is none. */
    method Find(dir: Ref, nm: string) returns (r: MaybeRef)
      requires Valid() && dir in s.tree.kids
      ensures r == Child(s, dir, nm)
    {
      hide Tree.Valid, Due, Sane;
      var list, i := s.tree.kids[dir], 0;
      while i < |list|
        invariant i <= |list|
        invariant forall j :: 0 <= j < i ==> !s.Finds(dir, nm, list[j])
      {
        ChildFacts(s.tree, dir, i);
        if list[i] in s.hashed && s.name[list[i]] == nm {
          assert s.Finds(dir, nm, list[i]);
          FoundOnce(s, pinned, foreign, dir, nm, list[i], Child(s, dir, nm).ref);
          return ThisRef(list[i]);
        }
        i := i + 1;
      }
      r := NoRef;
    }

    /** A lookup below a directory (__lookup_hash): a reference on the hashed child of that name, or
        on a new negative entry, which a dead directory does not get. */
    method Lookup(dir: Ref, nm: string, addr: Ref) returns (err: bool, d: Ref)
      requires Valid() && s.IsDir(dir) && addr !in s.tree.kids
      modifies this`s, this`refs
      ensures Valid() && dir in old(s.tree.kids) && dir in old(s.tree.depth) && dir in old(s.count)
      ensures err <==> old(View()).Dead(dir) && Child(old(s), dir, nm).NoRef?
      ensures if err then s == old(s) && refs == old(refs) else d in s.tree.kids && d in s.hashed
      ensures !err ==>
                match Child(old(s), dir, nm)
                case ThisRef(x) => d == x && d in old(refs) && s == old(s).(count := s.count) && refs == old(refs)[d := old(refs[d]) + 1]
                case NoRef => d == addr && s == old(s).Add(dir, nm, addr) && refs == old(refs)[addr := 1]
    {
      hide Tree.Valid, Due, Sane, LiveOf;
      GoodFacts(View());
      var found := Find(dir, nm);
      err, d := false, addr;
      if found.ThisRef? {
        d := found.ref;
        FindsFacts(s, dir, nm, d);
        Get(d);
      } else if dir != s.tree.root && !s.Live(dir) {
        err := true;
      } else {
        Alloc(dir, nm, addr);
      }
    }

    /** d_alloc and d_add: a negative entry at the head of its parent's list. */
    method Alloc(dir: Ref, nm: string, addr: Ref)
      requires Valid() && dir in s.tree.kids && s.IsDir(dir) && addr !in s.tree.kids && forall c :: !s.Finds(dir, nm, c)
      modifies this`s, this`refs
      ensures Valid() && dir in old(s.tree.depth) && s == old(s).Add(dir, nm, addr) && refs == old(refs)[addr := 1]
      ensures addr in s.tree.kids && addr in s.hashed
    {
      hide Tree.Valid, Due, Sane;
      DueFacts(s.tree, s.count, pinned, refs, {});
      AllocKeeps(s.tree, s.count, pinned, refs, dir, addr);
      AddWired(s, dir, nm, addr);
      SaneAdd(s, pinned, foreign, dir, nm, addr);
      s := s.Add(dir, nm, addr);
      refs := refs[addr := 1];
    }

    /** d_instantiate and dget: a negative entry enters the name space. */
    method Instantiate(d: Ref, ino: nat, isDir: bool)
      requires Valid() && d in s.tree.kids && d != s.tree.root && s.inode[d] == 0 && ino != 0
      modifies this`s, this`pinned
      ensures Valid() && pinned == old(pinned) + {d}
      ensures s == old(s).Born(d, ino, isDir).(count := s.count)
    {
      hide Tree.Valid, Due, Sane;
      NegativeUnpinned(s, pinned, foreign, d);
      PinTaken(s.tree, s.count, pinned, refs, d);
      SaneBorn(s, pinned, foreign, d, ino, isDir);
      ghost var born := s.Born(d, ino, isDir);
      s := s.Born(d, ino, isDir).(count := s.count[d := s.count[d] + 1]);
      pinned := pinned + {d};
      SaneAnyCount(born, pinned, foreign, s.count);
    }

    /** The kernel's d_delete, by a caller who holds a reference: negative if the caller is the
        only user, unhashed otherwise. */
    method Delete(d: Ref)
      requires Valid() && d != s.tree.root && d in refs && refs[d] > 0
      modifies this`s
      ensures Valid() && d in old(s.count) && d in old(s.inode)
      ensures if old(s.count[d]) == 1 then s == old(s).(inode := old(s.inode)[d := 0])
              else s == old(s).(hashed := old(s.hashed) - {d})
    {
      hide Tree.Valid, Due, Sane;
      DueFacts(s.tree, s.count, pinned, refs, {});
      if s.count[d] == 1 {
        Unparented(s.tree, d);
        SaneNegative(s, pinned, foreign, d);
        s := s.(inode := s.inode[d := 0]);
      } else {
        SaneUnhashed(s, pinned, foreign, d);
        s := s.(hashed := s.hashed - {d});
      }
    }

    /** dput of the pin. */
    method Unpin(d: Ref)
      requires Valid() && d in pinned && d != s.tree.root && d in s.inode && s.inode[d] !in foreign
      modifies this`s, this`refs, this`pinned
      ensures Valid() && pinned == old(pinned) - {d} && Kept(old(s), old(refs), s, refs, pinned)
      ensures d in old(s.count) && if old(s.count[d]) == 1 then d !in s.tree.kids
                                   else s == old(s).(count := s.count) && refs == old(refs)
    {
      hide Tree.Valid, Due, Sane, Kept, LiveOf;
      PinOwed(s.tree, s.count, pinned, refs, d);
      SaneUnpinned(s, pinned, foreign, d);
      pinned := pinned - {d};
      Release(d);
    }

    // -------------------------------------------------------------- the operations

    /** Lookup and wjfs_mknod: what the creation does, with the lookup's reference still held. */
    method Admit(dir: Ref, nm: string, ino: nat, isDir: bool, addr: Ref) returns (err: bool, ok: bool, d: Ref)
      requires Valid() && addr !in s.tree.kids && ino != 0 && s.IsDir(dir)
      modifies this`s, this`pinned, this`refs
      ensures Valid() && dir in old(s.tree.kids) && dir in old(s.tree.depth) && dir in old(s.count)
      ensures err <==> old(View()).Dead(dir) && Child(old(s), dir, nm).NoRef?
      ensures ok <==> !err && !NameTaken(old(s), dir, nm)
      ensures if err then View() == old(View()) else
              var e := Entered(old(View()), dir, nm, ino, isDir, addr);
              && d in e.refs && s == e.s.(count := s.count) && refs == e.refs[d := e.refs[d] + 1] && pinned == e.pinned
              && (ok ==> d in pinned && d in s.inode && s.inode[d] == ino)
    {
      hide Good, Tree.Valid, LiveOf;
      GoodFacts(View());
      err, d := Lookup(dir, nm, addr);
      if err { return true, false, d; }
      GoodFacts(View());
      ok := s.inode[d] == 0;
      if Child(old(s), dir, nm).ThisRef? { FindsFacts(old(s), dir, nm, d); }
      TakenIff(old(View()), dir, nm);
      if ok { Instantiate(d, ino, isDir); }
    }

    /** A lookup whose reference the caller keeps. */
    method HoldLookup(dir: Ref, nm: string, addr: Ref) returns (ok: bool)
      requires Valid() && s.IsDir(dir) && addr !in s.tree.kids
      modifies this`s, this`refs
      ensures ok <==> !(old(View()).Dead(dir) && Child(old(s), dir, nm).NoRef?)
      ensures dir in old(s.tree.kids) && dir in old(s.tree.depth) && dir in old(s.count)
      ensures old(s).Wired() && old(refs).Keys == old(s).tree.kids.Keys
      ensures Settled(LookedUp(old(View()), dir, nm, addr), View())
    {
      hide Good, Tree.Valid, LiveOf, Settled;
      GoodFacts(View());
      var err, d := Lookup(dir, nm, addr);
      ok := !err;
      SettledSelf(LookedUp(old(View()), dir, nm, addr), View());
    }

    method Open(d: Ref)
      requires Valid() && d in s.tree.kids
      modifies this`s, this`refs
      ensures d in old(refs) && Settled(old(View()).(refs := old(refs)[d := old(refs[d]) + 1]), View())
    {
      hide Good, Tree.Valid, LiveOf, Settled;
      GoodFacts(View());
      Get(d);
      SettledSelf(old(View()).(refs := refs), View());
    }

    method Close(d: Ref)
      requires Valid() && d in refs && refs[d] > 0
      modifies this`s, this`refs
      ensures Settled(old(View()).(refs := old(refs)[d := old(refs[d]) - 1]), View())
    {
      hide Good, Tree.Valid, LiveOf, Kept;
      Put(d);
    }

    /** Creating an entry: lookup, wjfs_mknod or wjfs_mkdir, and the caller's dput. */
    method Create(dir: Ref, nm: string, ino: nat, isDir: bool, addr: Ref) returns (ok: bool)
      requires Valid() && addr !in s.tree.kids && ino != 0 && s.IsDir(dir) && !View().Dead(dir)
      modifies this`s, this`pinned, this`refs
      ensures dir in old(s.tree.kids) && dir in old(s.tree.depth) && dir in old(s.count)
      ensures ok <==> !NameTaken(old(s), dir, nm)
      ensures Settled(Entered(old(View()), dir, nm, ino, isDir, addr), View())
    {
      hide Tree.Valid, Due, Sane, Kept, LiveOf;
      var err, d;
      err, ok, d := Admit(dir, nm, ino, isDir, addr);
      ghost var e, s1 := Entered(old(View()), dir, nm, ino, isDir, addr), s;
      Restored(e.refs, d, refs[d]);
      Put(d);
      KeptAnyCount(s1, e.refs, s, refs, pinned, e.s.count);
    }

    /** A plain atomic_dec in place of a dput, on an entry that has its pin. */
    method DropLookup(d: Ref)
      requires Valid() && d in pinned && d in refs && refs[d] > 0
      modifies this`s, this`refs
      ensures Valid() && s == old(s).(count := s.count) && refs == old(refs)[d := old(refs[d]) - 1]
    {
      hide Tree.Valid, Due, Sane, LiveOf;
      DueFacts(s.tree, s.count, pinned, refs, {});
      RefOwed(s.tree, s.count, pinned, refs, d);
      refs := refs[d := refs[d] - 1];
      PutEarlier(s.tree, s.count, pinned, refs, d);
      s := s.(count := s.count[d := s.count[d] - 1]);
      SaneAnyCount(old(s), pinned, foreign, s.count);
    }

    /** Creating a mirror on behalf of the peer (wjfs_create_by_name, the atomic_dec in rdma_create
        and the slot it fills).  The kernel stops if the lookup fails, since wjfs_create_by_name
        follows the error pointer, and if the name is taken, in d_instantiate. */
    method RemoteCreate(dir: Ref, nm: string, ino: nat, isDir: bool, addr: Ref) returns (bug: bool)
      requires Valid() && addr !in s.tree.kids && dir in s.tree.kids && View().Unused(ino)
      modifies this
      ensures dir in old(s.tree.depth) && dir in old(s.count)
      ensures bug <==> LookupFails(old(View()), dir, nm) || NameTaken(old(s), dir, nm)
      ensures !bug ==> Settled(Entered(old(View()), dir, nm, ino, isDir, addr).(foreign := old(foreign) + {ino}), View())
    {
      hide Tree.Valid, Due, Sane, Kept, LiveOf, Entered;
      GoodFacts(View());
      if BadName(nm) || !s.IsDir(dir) { return true; }
      var err, ok, d := Admit(dir, nm, ino, isDir, addr);
      bug := !ok;
      if ok {
        ghost var e := Entered(old(View()), dir, nm, ino, isDir, addr);
        Restored(e.refs, d, refs[d]);
        DropLookup(d);
        foreign := foreign + {ino};
        OnlyNew(old(View()), dir, nm, ino, isDir, addr);
        SaneForeign(s, pinned, old(foreign), ino);
        SettledSelf(e.(foreign := foreign), View());
      }
    }

    /** A hard link: the new entry shares the inode of `target`. */
    method Link(target: Ref, dir: Ref, nm: string, addr: Ref) returns (ok: bool)
      requires Valid() && addr !in s.tree.kids && s.IsDir(dir) && !View().Dead(dir) && s.Live(target)
      modifies this`s, this`pinned, this`refs
      ensures dir in old(s.tree.kids) && dir in old(s.tree.depth) && dir in old(s.count)
      ensures ok <==> !NameTaken(old(s), dir, nm)
      ensures Settled(Entered(old(View()), dir, nm, old(s.inode[target]), false, addr), View())
    {
      ok := Create(dir, nm, s.inode[target], false, addr);
    }

    /** wjfs_unlink, which drops the pin of an own entry and does nothing for a mirror, and the
        kernel's d_delete, by a caller who holds a reference. */
    method Withdraw(d: Ref)
      requires Valid() && d != s.tree.root && d in refs && refs[d] > 0 && (View().Mirror(d) || d in pinned)
      modifies this`s, this`pinned, this`refs
      ensures Valid() && refs == old(refs) && pinned == Left(old(View()), d).pinned && d in old(s.inode) && d in s.count
      ensures if s.count[d] == 1 then s == old(s).(inode := old(s.inode)[d := 0], count := s.count)
              else s == old(s).(hashed := old(s.hashed) - {d}, count := s.count)
    {
      hide Tree.Valid, Due, Sane, Kept, LiveOf;
      GoodFacts(View());
      DueFacts(s.tree, s.count, pinned, refs, {});
      if s.inode[d] !in foreign { Unpin(d); }
      Delete(d);
    }

    /** unlink(2): lookup, wjfs_unlink, the kernel's d_delete, and the caller's dput. */
    method Unlink(d: Ref)
      requires Valid() && d != s.tree.root && s.Live(d) && (View().Mirror(d) || d in pinned)
      modifies this`s, this`pinned, this`refs
      ensures Settled(Left(old(View()), d), View())
      ensures !old(View()).Mirror(d) && !InUse(old(View()), d) ==> d !in s.tree.kids
    {
      hide Tree.Valid, Due, Sane, Kept, LiveOf, Settled, InUse;
      ghost var c := View();
      GoodFacts(c);
      Get(d);
      Withdraw(d);
      ghost var dead, count := s.count[d] == 1, s.count;
      Restored(c.refs, d, refs[d]);
      Put(d);
      LeftSettled(c, count, d, dead, View());
    }

    /** simple_empty: no child is in the name space. */
    method SimpleEmpty(d: Ref) returns (empty: bool)
      requires s.Wired() && d in s.tree.kids
      ensures empty <==> View().NoLiveChild(d)
    {
      hide Tree.Valid;
      var list, i := s.tree.kids[d], 0;
      while i < |list|
        invariant i <= |list|
        invariant forall j :: 0 <= j < i ==> !s.Live(list[j])
      {
        ChildFacts(s.tree, d, i);
        if s.Live(list[i]) { return false; }
        i := i + 1;
      }
      return true;
    }

    /** rmdir(2): as for unlink, with one more dget and dput around it in vfs_rmdir.  Its
        dentry_unhash finds a count of at least 3 and leaves the entry hashed.  wjfs_rmdir asks
        for an empty directory only if it is an own one. */
    method Rmdir(d: Ref) returns (ok: bool)
      requires Valid() && d != s.tree.root && s.Live(d) && (View().Mirror(d) || d in pinned || !View().NoLiveChild(d))
      modifies this`s, this`pinned, this`refs
      ensures ok <==> old(View()).Mirror(d) || old(View()).NoLiveChild(d)
      ensures if ok then Settled(Left(old(View()), d), View()) else View() == old(View())
    {
      hide Tree.Valid, Due, Sane, Kept, LiveOf;
      GoodFacts(View());
      ok := s.inode[d] in foreign;
      if !ok { ok := SimpleEmpty(d); }
      if ok {
        ghost var c := View();
        Get(d);
        ghost var e := Left(View(), d);
        Unlink(d);
        SettledStays(e, View(), d);
        ghost var s1, refs1 := s, refs;
        KeptRef(e.s, e.refs, s, refs, pinned, d, c.refs[d]);
        Restored(c.refs, d, e.refs[d]);
        Put(d);
        KeptChain(e.s, c.refs, s1, refs1[d := c.refs[d]], s, refs, pinned);
        KeptAnyCount(e.s, c.refs, s, refs, pinned, c.s.count);
      }
    }

    /** Removing a mirror file on behalf of the peer (rdma_remove and wjfs_unlink_rdma): its slot is
        freed and its pin dropped.  If nobody holds it and it has no children it is freed; otherwise
        it stays as it is, without a pin. */
    method RemoteUnlink(d: Ref)
      requires Valid() && d in s.tree.kids && d != s.tree.root && View().Mirror(d)
      modifies this
      ensures Settled(old(View()).(pinned := old(pinned) - {d}, foreign := old(foreign) - {old(s.inode[d])}), View())
      ensures if !InUse(old(View()), d) then d !in s.tree.kids else s == old(s).(count := s.count) && refs == old(refs)
    {
      hide Tree.Valid, Due, Sane, Kept, LiveOf;
      GoodFacts(View());
      DueFacts(s.tree, s.count, pinned, refs, {});
      MirrorPinned(View(), d);
      SaneForget(s, pinned, foreign, s.inode[d]);
      foreign := foreign - {s.inode[d]};
      Unpin(d);
    }

    /** wjfs_rmdir_rdma: the same for a mirror directory, if it is empty.  The slot is freed in any
        case. */
    method RemoteRmdir(d: Ref) returns (ok: bool)
      requires Valid() && d in s.tree.kids && d != s.tree.root && View().Mirror(d)
      modifies this
      ensures ok <==> old(View()).NoLiveChild(d)
      ensures Settled(old(View()).(pinned := if ok then old(pinned) - {d} else old(pinned),
                                   foreign := old(foreign) - {old(s.inode[d])}), View())
      ensures if ok && !InUse(old(View()), d) then d !in s.tree.kids else s == old(s).(count := s.count) && refs == old(refs)
    {
      hide Tree.Valid, Due, Sane, Kept, LiveOf;
      ok := SimpleEmpty(d);
      if ok {
        RemoteUnlink(d);
      } else {
        GoodFacts(View());
        SaneForget(s, pinned, foreign, s.inode[d]);
        KeptSelf(s, refs, pinned);
        foreign := foreign - {s.inode[d]};
      }
    }

    /** wjfs_kill_litter_super and the teardown it leads to: the kernel stops exactly when some
        entry's count differs from its number of children plus what the walk takes; otherwise
        every dentry is freed once. */
    method Unmount() returns (bug: bool, detached: nat)
      requires s.Wired()
      modifies this`s
      ensures bug <==> exists x :: x in old(s.tree.kids) && !Balanced(old(View()), x)
      ensures !bug ==> detached == |old(s.tree.kids)| && s.tree.kids == map[]
    {
      hide Tree.Valid, Reach;
      RootFacts(s.tree);
      Genocide();
      s := s.(count := s.count[s.tree.root := s.count[s.tree.root] - 1]);
      assert forall x :: x in s.tree.kids ==> (s.count[x] == |s.tree.kids[x]| <==> Balanced(old(View()), x));
      ghost var t, was := s.tree, s.count;
      ghost var log;
      bug, detached, log := ShrinkSubtree();
      Verdict(t, was, bug, log);
    }

    /** Unmounting when no caller holds a reference: the kernel stops exactly when a pinned entry
        is out of the name space or a live one hangs below an unpinned one. */
    method UnmountQuiet() returns (bug: bool, detached: nat)
      requires Valid() && Quiet(View())
      modifies this`s
      ensures bug <==> Stuck(old(View()))
      ensures !bug ==> detached == |old(s.tree.kids)| && s.tree.kids == map[]
    {
      hide Tree.Valid, Due, Sane, Reach, Balanced, Stuck;
      StuckIff(View());
      bug, detached := Unmount();
    }

    /** One operation of a run. */
    method Step(op: Op, addr: Ref) returns (broken: bool)
      requires Valid()
      modifies this
      ensures broken <==> Breaks(old(View()), op, addr)
      ensures !broken ==> Did(old(View()), op, addr, View())
    {
      hide Good, Settled, Tree.Valid, Entered, LookedUp, Left;
      GoodFacts(View());
      SettledSelf(View(), View());
      broken := false;
      if !Enabled(Cache(s, pinned, refs, foreign), op, addr) { return; }
      var ok;
      match op
      case CreateOp(dir, nm, ino, isDir) => ok := Create(dir, nm, ino, isDir, addr);
      case RemoteCreateOp(dir, nm, ino, isDir) => broken := RemoteCreate(dir, nm, ino, isDir, addr);
      case LinkOp(target, dir, nm) => ok := Link(target, dir, nm, addr);
      case UnlinkOp(x) =>
        broken := s.inode[x] !in foreign && x !in pinned;
        if !broken { Unlink(x); }
      case RmdirOp(x) =>
        broken := s.inode[x] !in foreign && x !in pinned;
        if !broken { ok := Rmdir(x); }
      case RemoteUnlinkOp(x) => RemoteUnlink(x);
      case RemoteRmdirOp(x) => ok := RemoteRmdir(x);
      case LookupOp(dir, nm) =>
        ok := HoldLookup(dir, nm, addr);
      case OpenOp(x) => Open(x);
      case CloseOp(x) => Close(x);
    }
  }

  /** Mount, any run of operations, unmount if no caller holds a reference.  `trace` is the run: it
      covers all operations, or ends before the first that breaks the cache.  Unmounting stops the
      kernel exactly when the last state is stuck, and leaves nothing otherwise; a run without
      leaks is never stuck. */
  method Session(root: Ref, ino: nat, ops: seq<(Op, Ref)>)
    returns (done: nat, clean: bool, busy: bool, stopped: bool, left: nat, ghost trace: seq<Cache>)
    requires ino != 0
    ensures Trace(root, ino, ops, done, trace)
    ensures clean <==> forall i :: 0 <= i < done ==> !Leaks(trace[i], ops[i].0, ops[i].1)
    ensures busy <==> !Quiet(trace[done])
    ensures done == |ops| && !busy ==> (stopped <==> Stuck(trace[done])) && (!stopped ==> left == 0)
    ensures done < |ops| || busy ==> !stopped && left == |trace[done].s.tree.kids|
    ensures clean && done == |ops| && !busy ==> !stopped && left == 0
  {
    hide Good, Did, Breaks, Leaks, Clean, Stuck, Quiet;
    var dc := new Dcache(root, ino);
    var now := Mounted(root, ino);
    MountedClean(root, ino);
    done, clean, trace := 0, true, [now];
    var broken := false;
    while done < |ops| && !broken
      invariant done <= |ops| && Prefix(root, ino, ops, done, trace) && now == trace[done]
      invariant if broken then done < |ops| && Breaks(now, ops[done].0, ops[done].1) else dc.View() == now
      invariant clean <==> forall i :: 0 <= i < done ==> !Leaks(trace[i], ops[i].0, ops[i].1)
      invariant clean ==> Clean(now)
      decreases |ops| - done, !broken
    {
      var leaks := Leaks(now, ops[done].0, ops[done].1);
      broken := dc.Step(ops[done].0, ops[done].1);
      if !broken {
        ghost var next := dc.View();
        DidGood(now, ops[done].0, ops[done].1, next);
        if clean { CleanStep(now, ops[done].0, ops[done].1, next); }
        PrefixOn(root, ino, ops, done, trace, next);
        trace := trace + [next];
        clean := clean && !leaks;
        now := Cache(dc.s, dc.pinned, dc.refs, dc.foreign);
        done := done + 1;
      }
    }
    busy := !Quiet(now);
    stopped, left := false, |now.s.tree.kids|;
    if !broken && !busy {
      var detached;
      stopped, detached := dc.UnmountQuiet();
      left := |dc.s.tree.kids|;
      if clean { CleanNotStuck(now); }
    }
  }

  lemma Unparented(t: Tree<Ref>, d: Ref)
    requires t.Valid() && d in t.kids && t.kids[d] == []
    ensures forall x :: x in t.parent ==> t.parent[x] != d
  {
    hide Tree.Valid;
    forall x | x in t.parent ensures t.parent[x] != d { ParentFacts(t, x); }
  }

  lemma NegativeUnpinned(s: Store, pinned: set<Ref>, foreign: set<nat>, d: Ref)
    requires Sane(s, pinned, foreign) && d != s.tree.root && d in s.inode && s.inode[d] == 0
    ensures d !in pinned
  {
  }
}
