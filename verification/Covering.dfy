/**
 The peer's name space beside its mirrors: entries of its own, and mirrors that outlived the
 owner's removal because a process held them.  Without these strays the peer mirrors the owner, and
 every step keeps it so.
 */
module Covering {
  import opened Trees
  import opened Searches
  import opened Isomorphism
  import opened Cuts
  import opened Decimal
  import opened Wire
  import opened MappTables
  import opened Mirroring

  /** The entries that is_my_file takes for the peer's own. */
  ghost function Strays(p: Peer): set<int> {
    set x | x in p.host.tree.parent && !IsMirror(p.table, x)
  }

  ghost function CoreHost(h: Host, away: set<int>): Host {
    Host(Cut(h.tree, away), h.name - away, h.dirs - away, h.last)
  }

  /** The peer without the entries in `away`. */
  ghost function Core(p: Peer, away: set<int>): Peer {
    Peer(CoreHost(p.host, away), p.table, {}, {})
  }

  /** Every loose entry but those in `but` has a user or a child. */
  ghost predicate Held(p: Peer, but: set<int>) {
    forall x :: x in p.loose && x !in but ==> x in p.host.tree.kids && (p.host.tree.kids[x] != [] || x in p.open)
  }

  /** The peer without `away` mirrors `h`. */
  ghost predicate CoversWithout(h: Host, p: Peer, away: set<int>, rho: map<int, int>) {
    p.host.Valid() && Closed(p.host.tree, away) && p.loose <= away && Mirrors(h, Core(p, away), rho)
  }

  /** The peer mirrors `h` and has strays besides. */
  ghost predicate Covers(h: Host, p: Peer, rho: map<int, int>) {
    CoversWithout(h, p, Strays(p), rho) && Held(p, {})
  }

  /** What is left out of a mirror of `h` are exactly the strays. */
  lemma AwayIsStrays(h: Host, p: Peer, away: set<int>, rho: map<int, int>)
    requires CoversWithout(h, p, away, rho)
    ensures away == Strays(p)
  {
    hide Host.Valid, Tree.Valid, Shape, Mirrors, SameLabels, Links, Unique, Used, Entries, IsMirror, Keep;
    var c := Core(p, away);
    MirrorFacts(h, c, rho);
    HostTree(p.host);
    HostTree(h);
    forall y | y in p.host.tree.parent ensures y in away <==> !IsMirror(p.table, y) {
      MirrorIffEntry(p.table, y);
      if y in away {
        forall k | k in Entries(p.table) ensures Entries(p.table)[k].0 != y {
          LinkOut(h.tree, rho, k);
          var x := k.0;
          assert x in rho && rho[x] in c.host.tree.kids;
        }
      } else {
        var x := Onto(h.tree, c.host.tree, rho, y);
        LinkIn(h.tree, rho, x);
        assert Entries(p.table)[(x, h.tree.parent[x])].0 == y;
      }
    }
  }

  lemma CoverFacts(h: Host, p: Peer, rho: map<int, int>)
    requires Covers(h, p, rho)
    ensures h.Valid() && p.host.Valid() && rho.Keys == h.tree.kids.Keys
  {
    hide Host.Valid, Mirrors;
    MirrorFacts(h, Core(p, Strays(p)), rho);
  }

  lemma HostTree(h: Host)
    requires h.Valid()
    ensures h.tree.Valid() && h.tree.root in h.tree.kids && h.tree.parent.Keys == h.tree.kids.Keys - {h.tree.root}
    ensures h.name.Keys == h.tree.kids.Keys && h.dirs <= h.tree.kids.Keys && h.tree.root in h.dirs
  {
    RootFacts(h.tree);
  }

  lemma CoreValid(h: Host, away: set<int>)
    requires h.Valid() && Closed(h.tree, away)
    ensures CoreHost(h, away).Valid()
  {
    hide Tree.Valid, Keep;
    HostTree(h);
    CutValid(h.tree, away);
    KeepNothing(away);
  }

  // ---------------------------------------------------------------- searching

  lemma {:induction false} FirstAlike(s: seq<int>, f: int -> bool, g: int -> bool)
    requires forall i :: 0 <= i < |s| ==> f(s[i]) == g(s[i])
    ensures First(s, f) == First(s, g)
  {
    if s != [] { FirstAlike(s[1..], f, g); }
  }

  /** A search that does not end in an entry put aside ends where it would without these. */
  lemma FindCore(h: Host, away: set<int>, f: int -> bool, g: int -> bool)
    requires h.Valid() && Closed(h.tree, away) && forall x :: x in h.tree.kids && x !in away ==> f(x) == g(x)
    requires FindBy(h, f).Nothing? || FindBy(h, f).node !in away
    ensures CoreHost(h, away).Valid() && FindBy(CoreHost(h, away), g) == FindBy(h, f)
  {
    hide Host.Valid, Tree.Valid, Visit, Keep, First;
    CoreValid(h, away);
    HostTree(h);
    var t, u := h.tree, Cut(h.tree, away);
    VisitCut(t, h.dirs, away, t.root, 0);
    var s, r := Visit(t, t.kids.Keys, h.dirs, t.root, 0), Visit(u, u.kids.Keys, h.dirs - away, t.root, 0);
    assert t.kids[t.root][..0] == [];
    KeepNothing(away);
    assert Keep(s, away) == r;
    FirstKept(s, away, f);
    forall i | 0 <= i < |r| ensures f(r[i]) == g(r[i]) {
      var x := r[i];
      VisitIn(t, h.dirs, x);
      assert x in s;
    }
    FirstAlike(r, f, g);
  }

  /** The search meets entries of the tree only. */
  lemma VisitIn(t: Tree<int>, dirs: set<int>, x: int)
    requires t.Valid()
    ensures t.root in t.kids && (x in Visit(t, t.kids.Keys, dirs, t.root, 0) ==> x in t.kids)
  {
    hide Visit;
    if x in Visit(t, t.kids.Keys, dirs, t.root, 0) { VisitBelow(t, dirs, t.root, 0, x); }
  }

  lemma {:induction false} VisitBelow(t: Tree<int>, dirs: set<int>, p: int, i: nat, x: int)
    requires t.Valid() && p in t.kids && i <= |t.kids[p]| && x in Visit(t, t.kids.Keys, dirs, p, i)
    ensures x in t.kids
    decreases if p in t.depth then t.bound - t.depth[p] else 0, |t.kids[p]| - i
  {
    hide Tree.Valid, Visit, Hits;
    VisitAndHits(t, t.kids.Keys, dirs, p, i, 0);
    if i < |t.kids[p]| {
      var c := t.kids[p][i];
      ChildFacts(t, p, i);
      if x in Visit(t, t.kids.Keys, dirs, p, i + 1) { VisitBelow(t, dirs, p, i + 1, x); }
      else if c in dirs && x in Visit(t, t.kids.Keys, dirs, c, 0) { VisitBelow(t, dirs, c, 0, x); }
    }
  }

  lemma ParentCore(p: Peer, away: set<int>, n: string)
    requires p.host.Valid() && Closed(p.host.tree, away)
    requires ParentFor(p.host, n).Nothing? || ParentFor(p.host, n).node !in away
    ensures CoreHost(p.host, away).Valid() && ParentFor(CoreHost(p.host, away), n) == ParentFor(p.host, n)
  {
    hide Host.Valid, Tree.Valid, FindBy, Keep;
    CoreValid(p.host, away);
    HostTree(p.host);
    if n != p.host.name[p.host.tree.root] {
      FindCore(p.host, away, ByName(p.host, n), ByName(CoreHost(p.host, away), n));
    }
  }

  // ---------------------------------------------------------------- creating

  /** A stray in directory `d` has the name. */
  ghost predicate StrayTaken(p: Peer, d: int, n: string) {
    exists x :: x in Strays(p) && x in p.host.tree.parent && p.host.tree.parent[x] == d && x in p.host.name && p.host.name[x] == n
  }

  lemma TakenSplits(p: Peer, d: int, n: string)
    requires p.host.Valid()
    ensures Taken(p.host, d, n) <==> Taken(Core(p, Strays(p)).host, d, n) || StrayTaken(p, d, n)
  {
    hide Host.Valid, Tree.Valid, Strays;
    var c := Core(p, Strays(p));
    HostTree(p.host);
    if Taken(p.host, d, n) {
      var x :| x in p.host.tree.parent && p.host.tree.parent[x] == d && x in p.host.name && p.host.name[x] == n;
      if x in Strays(p) { assert StrayTaken(p, d, n); }
      else { assert x in c.host.tree.parent && c.host.tree.parent[x] == d && x in c.host.name && c.host.name[x] == n; }
    }
    if x :| x in c.host.tree.parent && c.host.tree.parent[x] == d && x in c.host.name && c.host.name[x] == n {
      assert x in p.host.tree.parent && p.host.tree.parent[x] == d && x in p.host.name && p.host.name[x] == n;
    }
  }

  /** The server takes an entry that mirrors something for the parent of the new entry. */
  ghost predicate Unmistaken(p: Peer, n: string)
    requires p.host.Valid()
  {
    ParentFor(p.host, n).Entry? ==> ParentFor(p.host, n).node !in Strays(p)
  }

  /** The message of a creation stops the kernel, or is carried out below the mirror of the entry
      that the owner's tree has for the parent's name. */
  lemma CoverMake(h: Host, p: Peer, rho: map<int, int>, op: Op, l: int)
    requires Covers(h, p, rho) && op.Make? && Possible(h, op) && Unmistaken(p, h.name[op.parent])
    ensures var q := TakenFor(h, op.parent);
            && q in rho && rho[q] in p.host.tree.kids && rho[q] !in Strays(p)
            && ParentFor(p.host, h.name[op.parent]) == Entry(rho[q])
            && Deliver(p, Print(MsgOf(h, op)), l)
               == if q in h.dirs && !Taken(h, q, op.name) && !StrayTaken(p, rho[q], op.name)
                  then Some(DeliverCreate(p, MsgOf(h, op), rho[q], l)) else None
  {
    hide Host.Valid, Tree.Valid, Parse, Print, Mirrors, Taken, TakenFor, ParentFor, Strays, StrayTaken, Cut, DeliverCreate;
    var c := Core(p, Strays(p));
    MirrorFacts(h, c, rho);
    MessageArrives(h, op);
    ParentFound(h, c, rho, op.parent);
    ParentCore(p, Strays(p), h.name[op.parent]);
    TakenRenamed(h, c, rho, TakenFor(h, op.parent), op.name);
    TakenSplits(p, rho[TakenFor(h, op.parent)], op.name);
    Labelled(h, p, rho, TakenFor(h, op.parent));
    MakeMsg(h, op);
  }

  lemma MakeMsg(h: Host, op: Op)
    requires h.Valid() && Possible(h, op) && op.Make?
    ensures op.parent in h.name && var m := MsgOf(h, op);
            m.kind.CR? && m.name == op.name && !BadName(m.name) && m.parentName == h.name[op.parent]
  {
  }

  lemma Labelled(h: Host, p: Peer, rho: map<int, int>, q: int)
    requires p.host.Valid() && Mirrors(h, Core(p, Strays(p)), rho) && q in rho
    ensures rho[q] in p.host.tree.kids && rho[q] !in Strays(p) && (q in h.dirs <==> rho[q] in p.host.dirs)
    ensures q in h.tree.parent ==> rho[q] in p.host.tree.parent
  {
    hide Host.Valid, Tree.Valid, Mirrors, Strays, Keep;
    MirrorFacts(h, Core(p, Strays(p)), rho);
    HostTree(p.host);
    if q in h.tree.parent { Rooted(h, Core(p, Strays(p)), rho, q); }
  }

  lemma CoreAdded(h: Host, away: set<int>, q: int, n: string, d: bool, l: int)
    requires h.Valid() && q in h.tree.kids && q !in away && l !in away && l !in h.tree.kids
    ensures q in h.tree.depth && q in CoreHost(h, away).tree.kids && q in CoreHost(h, away).tree.depth
    ensures CoreHost(Added(h, q, n, d, l), away) == Added(CoreHost(h, away), q, n, d, l)
  {
    hide Host.Valid, Tree.Valid, Keep, Cut, Grow;
    HostTree(h);
    CutGrow(h.tree, away, q, l);
    assert h.name[l := n] - away == (h.name - away)[l := n];
    assert (if d then h.dirs + {l} else h.dirs) - away == if d then (h.dirs - away) + {l} else h.dirs - away;
  }

  lemma ClosedGrows(t: Tree<int>, away: set<int>, q: int, l: int)
    requires t.Valid() && Closed(t, away) && q in t.kids && q in t.depth && q !in away && l !in t.kids
    ensures Closed(Grow(t, q, l), away)
  {
    hide Tree.Valid;
    RootFacts(t);
  }

  /** A legal creation is mirrored beside the strays if none of them is in its way. */
  lemma CoverCreates(h: Host, p: Peer, rho: map<int, int>, op: Op, l: int)
    requires Covers(h, p, rho) && Legal(h, op) && op.Make? && p.host.last < l <= INT_MAX
    requires op.parent in rho ==> !StrayTaken(p, rho[op.parent], op.name)
    ensures op.parent in rho && rho[op.parent] in p.host.tree.kids
    ensures Covers(Apply(h, op), DeliverCreate(p, MsgOf(h, op), rho[op.parent], l), rho[op.ino := l])
    ensures Strays(DeliverCreate(p, MsgOf(h, op), rho[op.parent], l)) == Strays(p)
  {
    hide Host.Valid, Tree.Valid, Mirrors, Taken, StrayTaken, Strays, Cut, Keep, Resolves, Apply, Closed, Inserted;
    var away := Strays(p);
    var c := Core(p, away);
    MirrorFacts(h, c, rho);
    CreateMirrors(h, c, rho, op, l);
    Labelled(h, p, rho, op.parent);
    var q, p' := rho[op.parent], DeliverCreate(p, MsgOf(h, op), rho[op.parent], l);
    NewHere(h, p, rho, op, l);
    CoreAdded(p.host, away, q, op.name, op.isDir, l);
    ClosedGrows(p.host.tree, away, q, l);
    HeldGrows(p, p', q, l);
    MakeMsg(h, op);
    assert Core(p', away) == DeliverCreate(c, MsgOf(h, op), q, l);
    AwayIsStrays(Apply(h, op), p', away, rho[op.ino := l]);
  }

  /** The new slot only fits the mirror of the parent, and only while there is room. */
  lemma OnlyRightParent(h: Host, p: Peer, rho: map<int, int>, op: Op, l: int, q: int, rho': map<int, int>)
    requires Covers(h, p, rho) && Possible(h, op) && op.Make? && q in p.host.tree.kids && l !in p.host.tree.kids
    requires Covers(Apply(h, op), DeliverCreate(p, MsgOf(h, op), q, l), rho')
    ensures |h.tree.parent| < SLOTS && op.parent in rho && q == rho[op.parent]
  {
    hide Host.Valid, Tree.Valid, Mirrors, SameLabels, Links, Unique, Used, Entries, Inserted, FirstFree, Strays, Cut, Held, Closed;
    CoverFacts(h, p, rho);
    var h', p', c := Apply(h, op), DeliverCreate(p, MsgOf(h, op), q, l), Core(p, Strays(p));
    var c' := Core(p', Strays(p'));
    MirrorFacts(h, c, rho);
    MirrorFacts(h', c', rho');
    MadeFacts(h, op);
    HostTree(h);
    NoRoomLeft(p.table, Slot(true, l, op.ino, q, op.parent));
    NotInCore(p, l);
    NewMirror(h, c, rho, l);
    NewKey(h.tree, rho, op.parent, op.ino);
    InsertRefines(p.table, Slot(true, l, op.ino, q, op.parent));
    LinkIn(h'.tree, rho', op.ino);
    if op.parent != h.tree.root {
      LinkIn(h.tree, rho, op.parent);
      LinkIn(h'.tree, rho', op.parent);
    }
    CoreRoot(p, p');
  }

  lemma DeliverAny(h: Host, p: Peer, op: Op, l: int)
    requires h.Valid() && p.host.Valid() && op.Make? && Possible(h, op)
    ensures op.parent in h.name && var r := ParentFor(p.host, h.name[op.parent]);
            Deliver(p, Print(MsgOf(h, op)), l)
            == if r.Nothing? || r.node !in p.host.dirs || Taken(p.host, r.node, op.name) then None
               else Some(DeliverCreate(p, MsgOf(h, op), r.node, l))
  {
    hide Host.Valid, Parse, Print, ParentFor, Taken, DeliverCreate;
    MessageArrives(h, op);
    MakeMsg(h, op);
  }

  /** Delivering the message of a creation keeps the peer covering the owner if and only if the table
      has room, the search ends in the mirror of the parent, and no stray there has the name. */
  lemma CoverMadeIff(h: Host, p: Peer, rho: map<int, int>, op: Op, l: int)
    requires Covers(h, p, rho) && op.Make? && Possible(h, op) && p.host.last < l <= INT_MAX
    ensures op.parent in rho && var r := Deliver(p, Print(MsgOf(h, op)), l);
            r.Some? && (exists rho' :: Covers(Apply(h, op), r.value, rho')) <==>
            && |h.tree.parent| < SLOTS && ParentFor(p.host, h.name[op.parent]) == Entry(rho[op.parent])
            && !StrayTaken(p, rho[op.parent], op.name)
  {
    hide Host.Valid, Covers, Deliver, DeliverCreate, ParentFor, Taken, TakenFor, StrayTaken, Print, Apply, MsgOf, Strays;
    CoverFacts(h, p, rho);
    DeliverAny(h, p, op, l);
    MadeFacts(h, op);
    var r, f := Deliver(p, Print(MsgOf(h, op)), l), ParentFor(p.host, h.name[op.parent]);
    if r.Some? {
      TakenSplits(p, f.node, op.name);
      Unnumbered(p.host, l);
      forall rho' | Covers(Apply(h, op), r.value, rho') ensures |h.tree.parent| < SLOTS && f.node == rho[op.parent] {
        OnlyRightParent(h, p, rho, op, l, f.node, rho');
      }
    }
    if |h.tree.parent| < SLOTS && f == Entry(rho[op.parent]) && !StrayTaken(p, rho[op.parent], op.name) {
      RightParent(h, p, rho, op, l);
      CoverCreates(h, p, rho, op, l);
      assert Covers(Apply(h, op), r.value, rho[op.ino := l]);
    }
  }

  /** A search that ends in the mirror of the parent would end in the parent on the owner's side. */
  lemma RightParent(h: Host, p: Peer, rho: map<int, int>, op: Op, l: int)
    requires Covers(h, p, rho) && op.Make? && Possible(h, op) && |h.tree.parent| < SLOTS && op.parent in rho
    requires ParentFor(p.host, h.name[op.parent]) == Entry(rho[op.parent]) && !StrayTaken(p, rho[op.parent], op.name)
    ensures Legal(h, op) && rho[op.parent] in p.host.tree.kids
    ensures Deliver(p, Print(MsgOf(h, op)), l) == Some(DeliverCreate(p, MsgOf(h, op), rho[op.parent], l))
  {
    hide Host.Valid, Tree.Valid, Mirrors, Deliver, DeliverCreate, ParentFor, Taken, StrayTaken, Print, MsgOf, Strays, Cut, Held, Closed;
    var c := Core(p, Strays(p));
    MirrorFacts(h, c, rho);
    Labelled(h, p, rho, op.parent);
    CoverMake(h, p, rho, op, l);
    SameImage(h.tree, c.host.tree, rho, TakenFor(h, op.parent), op.parent);
  }

  lemma MadeFacts(h: Host, op: Op)
    requires h.Valid() && Possible(h, op) && op.Make?
    ensures var h' := Apply(h, op);
            && h'.Valid() && h'.tree.root == h.tree.root && h'.tree.parent == h.tree.parent[op.ino := op.parent]
            && op.ino !in h.tree.kids && op.parent in h.tree.kids && |h'.tree.parent| == |h.tree.parent| + 1
    ensures var m := MsgOf(h, op); m.ino == op.ino && m.parentIno == op.parent
  {
    hide Tree.Valid;
    HostTree(h);
    PossibleKeeps(h, op);
    DepthFacts(h.tree, op.parent);
    ParentGrows(h.tree, op.parent, op.ino);
  }

  lemma NoRoomLeft(s: seq<Slot>, e: Slot)
    requires |s| == SLOTS && |Inserted(s, e)| == SLOTS && Used(Inserted(s, e)) == Used(s) + 1
    ensures Used(s) < SLOTS && FirstFree(s) < |s|
  {
    hide Used;
    FullIffUsed(s);
    FullIffUsed(Inserted(s, e));
  }

  lemma NotInCore(p: Peer, l: int)
    requires l !in p.host.tree.kids
    ensures l !in Core(p, Strays(p)).host.tree.kids
  {
  }

  lemma CoreRoot(p: Peer, p': Peer)
    requires p'.host.tree.root == p.host.tree.root
    ensures Core(p', Strays(p')).host.tree.root == Core(p, Strays(p)).host.tree.root == p.host.tree.root
  {
  }

  lemma NewHere(h: Host, p: Peer, rho: map<int, int>, op: Op, l: int)
    requires Covers(h, p, rho) && Possible(h, op) && op.Make? && p.host.last < l <= INT_MAX
    requires op.parent in rho && rho[op.parent] in p.host.tree.kids && !StrayTaken(p, rho[op.parent], op.name)
    ensures rho[op.parent] in p.host.tree.depth && l !in p.host.tree.kids && l !in Strays(p) && p.host.tree.Valid()
    ensures Added(p.host, rho[op.parent], op.name, op.isDir, l).Valid()
  {
    hide Host.Valid, Tree.Valid, Mirrors, Taken, StrayTaken, Cut, Keep, Closed;
    var c, q := Core(p, Strays(p)), rho[op.parent];
    MirrorFacts(h, c, rho);
    HostTree(p.host);
    Labelled(h, p, rho, op.parent);
    TakenRenamed(h, c, rho, op.parent, op.name);
    TakenSplits(p, q, op.name);
    Unnumbered(p.host, l);
    PossibleKeeps(p.host, Make(q, op.name, op.isDir, l));
    DepthFacts(p.host.tree, q);
  }

  lemma Unnumbered(h: Host, l: int)
    requires h.Valid() && h.last < l
    ensures l !in h.tree.kids
  {
  }

  lemma HeldGrows(p: Peer, p': Peer, q: int, l: int)
    requires Held(p, {}) && q in p.host.tree.kids && q in p.host.tree.depth && l !in p.loose
    requires p'.host.tree == Grow(p.host.tree, q, l) && p'.loose == p.loose && p'.open == p.open
    ensures Held(p', {})
  {
  }

  // ---------------------------------------------------------------- removing

  /** Putting a leaf of the core aside takes it out of the core. */
  lemma CoreMore(h: Host, away: set<int>, x: int)
    requires h.Valid() && Closed(h.tree, away) && x in h.tree.parent && x !in away
    requires CoreHost(h, away).Valid() && Possible(CoreHost(h, away), Drop(x))
    ensures CoreHost(h, away + {x}) == Apply(CoreHost(h, away), Drop(x)) && Closed(h.tree, away + {x})
  {
    hide Host.Valid, Tree.Valid, Keep;
    HostTree(h);
    CutMore(h.tree, away, x);
    assert h.name - (away + {x}) == (h.name - away) - {x} && h.dirs - (away + {x}) == (h.dirs - away) - {x};
    forall y | y in h.tree.parent && h.tree.parent[y] == x ensures y in away {
      HungBelow(h.tree, y);
      assert y !in Keep(h.tree.kids[x], away);
    }
  }

  /** An entry that leaves the tree need not be put aside. */
  lemma CoreDropped(h: Host, away: set<int>, x: int)
    requires h.Valid() && Possible(h, Drop(x))
    ensures CoreHost(Apply(h, Drop(x)), away) == CoreHost(h, away + {x})
    ensures Closed(h.tree, away) && x !in away ==> Closed(Apply(h, Drop(x)).tree, away)
  {
    hide Host.Valid, Tree.Valid, Keep, Cut;
    HostTree(h);
    ParentFacts(h.tree, x);
    CutPruned(h.tree, away, x, h.tree.Idx(x));
    assert (h.name - {x}) - away == h.name - (away + {x}) && (h.dirs - {x}) - away == h.dirs - (away + {x});
  }

  lemma HeldShrinks(p: Peer, x: int)
    requires p.host.Valid() && Possible(p.host, Drop(x)) && Held(p, {x})
    ensures Held(Peer(Apply(p.host, Drop(x)), p.table, p.open, p.loose - {x}), {p.host.tree.parent[x]})
  {
    hide Host.Valid, Tree.Valid;
    HostTree(p.host);
    ParentFacts(p.host.tree, x);
  }

  /** What the server does about the mirror of a removed entry. */
  lemma DropHere(h: Host, p: Peer, rho: map<int, int>, op: Op)
    requires Covers(h, p, rho) && Possible(h, op) && op.Drop?
    ensures op.ino in rho && rho[op.ino] in p.host.tree.parent && rho[op.ino] in p.host.tree.kids && rho[op.ino] !in Strays(p)
    ensures MirrorOf(p.table, MsgOf(h, op)) == rho[op.ino]
    ensures CoreHost(p.host, Strays(p)).Valid() && Possible(CoreHost(p.host, Strays(p)), Drop(rho[op.ino]))
    ensures Mirrors(Apply(h, op),
                    Peer(Apply(CoreHost(p.host, Strays(p)), Drop(rho[op.ino])), Removed(p.table, (op.ino, h.tree.parent[op.ino])), {}, {}),
                    rho - {op.ino})
    ensures p.host.tree.kids[rho[op.ino]] != [] ==> MsgOf(h, op).isDir
  {
    hide Host.Valid, Tree.Valid, Mirrors, Strays, Cut, Keep, Apply, Removed, Closed, MirrorOf;
    var c := Core(p, Strays(p));
    MirrorFacts(h, c, rho);
    DeliverDrop(h, c, rho, op);
    RemoveMirrors(h, c, rho, op);
    Labelled(h, p, rho, op.ino);
    HostTree(p.host);
    if p.host.tree.kids[rho[op.ino]] != [] { OnlyDirs(p.host, rho[op.ino]); }
    DropMsg(h, op);
  }

  lemma Rooted(h: Host, p: Peer, rho: map<int, int>, x: int)
    requires Mirrors(h, p, rho) && x in h.tree.parent
    ensures x in rho && rho[x] != p.host.tree.root
  {
    hide Host.Valid, Tree.Valid, Mirrors, Shape;
    MirrorFacts(h, p, rho);
    ImageOfParent(h.tree, p.host.tree, rho, x);
    RootFacts(p.host.tree);
  }

  lemma OnlyDirs(h: Host, x: int)
    requires h.Valid() && x in h.tree.kids && h.tree.kids[x] != []
    ensures x in h.dirs
  {
  }

  lemma DropMsg(h: Host, op: Op)
    requires h.Valid() && Possible(h, op) && op.Drop?
    ensures var m := MsgOf(h, op);
            m.kind.RM? && m.ino == op.ino && m.parentIno == h.tree.parent[op.ino] && (m.isDir <==> op.ino in h.dirs)
  {
  }

  /** The message of a removal is always handled: the mirror is freed if nobody holds it and no stray
      hangs below it, and otherwise becomes a stray itself, without a pin unless a stray hangs below. */
  lemma CoverRemoves(h: Host, p: Peer, rho: map<int, int>, op: Op)
    requires Covers(h, p, rho) && Possible(h, op) && op.Drop?
    ensures op.ino in rho && rho[op.ino] in p.host.tree.kids && rho[op.ino] !in Strays(p)
    ensures var x, p' := rho[op.ino], DeliverRemove(p, MsgOf(h, op));
            && Covers(Apply(h, op), p', rho - {op.ino})
            && (Strays(p') == if p.host.tree.kids[x] == [] && x !in p.open then Strays(p) else Strays(p) + {x})
            && (p'.loose == if p.host.tree.kids[x] == [] && x in p.open then p.loose + {x} else p.loose)
            && (Strays(p) == {} ==> p.host.tree.kids[x] == [])
  {
    hide Host.Valid, Tree.Valid, Mirrors, Strays, Cut, Keep, Apply, Removed, Closed, MirrorOf, Freed, FindBy, Held;
    CoverFacts(h, p, rho);
    DropHere(h, p, rho, op);
    var x, away := rho[op.ino], Strays(p);
    var p' := p.(table := Removed(p.table, (op.ino, h.tree.parent[op.ino])));
    DropMsg(h, op);
    InoFound(p.host, x);
    CoreMore(p.host, away, x);
    if away == {} { StraysBelow(p.host, away, x); }
    if p.host.tree.kids[x] == [] && x !in p.open {
      FreedMirror(p, p', x);
      CoreDropped(p.host, away, x);
      PossibleKeeps(p.host, Drop(x));
      AwayIsStrays(Apply(h, op), Freed(p', x), away, rho - {op.ino});
    } else {
      var p'' := DeliverRemove(p, MsgOf(h, op));
      HeldMore(p, p'', x);
      AwayIsStrays(Apply(h, op), p'', away + {x}, rho - {op.ino});
    }
  }

  lemma StraysBelow(h: Host, away: set<int>, x: int)
    requires CoreHost(h, away).Valid() && Possible(CoreHost(h, away), Drop(x)) && x in h.tree.kids && away == {}
    ensures h.tree.kids[x] == []
  {
    hide Host.Valid, Tree.Valid, Keep;
    KeepAll(h.tree.kids[x], away);
  }

  /** Freeing a mirror does not go on to its parent, which is no stray. */
  lemma FreedMirror(p: Peer, p': Peer, x: int)
    requires p.host.Valid() && Closed(p.host.tree, Strays(p)) && p.loose <= Strays(p) && Held(p, {})
    requires p' == p.(table := p'.table) && Possible(p.host, Drop(x)) && x !in Strays(p)
    ensures Freed(p', x) == p'.(host := Apply(p.host, Drop(x))) && Held(Freed(p', x), {})
  {
    hide Host.Valid, Tree.Valid, Strays, Apply;
    HostTree(p.host);
    HeldShrinks(p, x);
    assert p.loose - {x} == p.loose;
  }

  lemma HeldMore(p: Peer, p': Peer, x: int)
    requires Held(p, {}) && p'.host == p.host && p'.open == p.open && x in p.host.tree.kids
    requires p'.loose == p.loose || (p'.loose == p.loose + {x} && (p.host.tree.kids[x] != [] || x in p.open))
    ensures Held(p', {})
  {
  }

  // ---------------------------------------------------------------- closing

  /** A stray without children leaves the tree. */
  ghost function Less(p: Peer, x: int): Peer
    requires p.host.Valid() && Possible(p.host, Drop(x))
  {
    Peer(Apply(p.host, Drop(x)), p.table, p.open, p.loose - {x})
  }

  lemma LessCovers(h: Host, p: Peer, rho: map<int, int>, x: int)
    requires CoversWithout(h, p, Strays(p), rho) && Held(p, {x}) && Possible(p.host, Drop(x)) && x in Strays(p)
    ensures var p' := Less(p, x);
            && CoversWithout(h, p', Strays(p'), rho) && Strays(p') == Strays(p) - {x} && Held(p', {p.host.tree.parent[x]})
            && (!Unheld(p', p.host.tree.parent[x]) ==> Held(p', {}))
  {
    hide Host.Valid, Tree.Valid, Mirrors, Strays, Cut, Keep;
    var p', away := Less(p, x), Strays(p);
    HostTree(p.host);
    ParentFacts(p.host.tree, x);
    PossibleKeeps(p.host, Drop(x));
    CoreDropped(p.host, away, x);
    CoreLess(p'.host, away, x);
    assert away + {x} == away;
    HeldShrinks(p, x);
    if !Unheld(p', p.host.tree.parent[x]) { StillHeld(p', p.host.tree.parent[x]); }
    AwayIsStrays(h, p', away - {x}, rho);
  }

  lemma StillHeld(p: Peer, q: int)
    requires p.host.Valid() && Held(p, {q}) && p.loose <= p.host.tree.parent.Keys && !Unheld(p, q)
    ensures Held(p, {})
  {
    hide Host.Valid, Tree.Valid;
    HostTree(p.host);
  }

  lemma CoreLess(h: Host, away: set<int>, x: int)
    requires h.Valid() && x !in h.tree.kids
    ensures CoreHost(h, away - {x}) == CoreHost(h, away)
  {
    hide Host.Valid, Tree.Valid, Cut;
    HostTree(h);
    CutLess(h.tree, away, x);
    assert h.name - (away - {x}) == h.name - away && h.dirs - (away - {x}) == h.dirs - away;
  }

  /** Freeing a stray, and then loose ancestors that were kept only by it, frees nothing else. */
  lemma {:induction false} FreedCovers(h: Host, p: Peer, rho: map<int, int>, x: int)
    requires CoversWithout(h, p, Strays(p), rho) && Held(p, {x}) && Possible(p.host, Drop(x)) && x in Strays(p)
    ensures var p' := Freed(p, x);
            && Covers(h, p', rho) && Strays(p') <= Strays(p) - {x} && Strays(p) - Strays(p') <= p.loose + {x}
            && p'.open == p.open && p'.loose <= p.loose
    decreases if x in p.host.tree.depth then p.host.tree.depth[x] else 0
  {
    hide Host.Valid, Tree.Valid, Mirrors, Strays, Cut, Keep, Held, Closed;
    LessCovers(h, p, rho, x);
    FreedStep(p, x);
    var q := p.host.tree.parent[x];
    if Unheld(Less(p, x), q) {
      FreedCovers(h, Less(p, x), rho, q);
      forall y | y in Strays(p) - Strays(Freed(p, x)) ensures y in p.loose + {x} {
        assert y == x || y in Strays(Less(p, x)) - Strays(Freed(p, x));
      }
    }
  }

  lemma FreedStep(p: Peer, x: int)
    requires p.host.Valid() && Possible(p.host, Drop(x))
    ensures Less(p, x).host.Valid() && x in p.host.tree.depth && p.host.tree.depth[x] > 0
    ensures var q := p.host.tree.parent[x];
            && (Unheld(Less(p, x), q) ==>
                && q in Less(p, x).host.tree.depth && Less(p, x).host.tree.depth[q] == p.host.tree.depth[x] - 1
                && Freed(p, x) == Freed(Less(p, x), q))
            && (!Unheld(Less(p, x), q) ==> Freed(p, x) == Less(p, x))
  {
    hide Host.Valid, Tree.Valid;
    HostTree(p.host);
    ParentFacts(p.host.tree, x);
    PossibleKeeps(p.host, Drop(x));
  }

  /** The last user of `x` closes it. */
  ghost function LetGo(p: Peer, x: int): Peer
    requires p.host.Valid()
  {
    var p' := p.(open := p.open - {x});
    if Unheld(p', x) then Freed(p', x) else p'
  }

  /** Closing frees a stray that has lost its pin, with the ancestors it kept, and nothing else. */
  lemma CoverCloses(h: Host, p: Peer, rho: map<int, int>, x: int)
    requires Covers(h, p, rho)
    ensures var p' := LetGo(p, x);
            && Covers(h, p', rho) && Strays(p') <= Strays(p) && Strays(p) - Strays(p') <= p.loose && p'.loose <= p.loose
            && (x in p.loose && x in p.host.tree.kids && p.host.tree.kids[x] == [] ==> x !in Strays(p'))
  {
    hide Host.Valid, Tree.Valid, Mirrors, Strays, Cut, Keep, Freed;
    var p' := p.(open := p.open - {x});
    HostTree(p.host);
    SameStrays(p, p');
    assert Held(p', {x});
    if Unheld(p', x) { FreedCovers(h, p', rho, x); } else { StillHeld(p', x); }
  }

  lemma SameStrays(p: Peer, p': Peer)
    requires p'.host.tree.parent == p.host.tree.parent && p'.table == p.table
    ensures Strays(p') == Strays(p)
  {
  }

  /** Without strays the peer mirrors the owner. */
  lemma NoStrays(h: Host, p: Peer, rho: map<int, int>)
    requires Covers(h, p, rho) && Strays(p) == {}
    ensures Mirrors(h, p, rho)
  {
    hide Host.Valid, Tree.Valid, Mirrors, Strays, Cut, Keep, Held, Closed;
    HostTree(p.host);
    CutNothing(p.host.tree);
    assert p.host.name - {} == p.host.name && p.host.dirs - {} == p.host.dirs;
    MirrorsAlike(h, Core(p, {}), p, rho);
  }

  lemma CutNothing(t: Tree<int>)
    requires t.Valid()
    ensures Cut(t, {}) == t
  {
    hide Tree.Valid, Keep;
    forall p | p in t.kids ensures Keep(t.kids[p], {}) == t.kids[p] { KeepAll(t.kids[p], {}); }
    assert Cut(t, {}).kids == t.kids;
  }

  /** Neither who holds what nor the inode numbers handed out matter to the mirror. */
  lemma MirrorsAlike(h: Host, p: Peer, p': Peer, rho: map<int, int>)
    requires Mirrors(h, p, rho) && p'.host.Valid() && p'.table == p.table && p'.loose == {}
    requires p'.host.tree.root == p.host.tree.root && p'.host.tree.kids == p.host.tree.kids
    requires p'.host.name == p.host.name && p'.host.dirs == p.host.dirs
    ensures Mirrors(h, p', rho)
  {
    hide Host.Valid, Tree.Valid, Links, Unique, Used, Entries;
    HostTree(p'.host);
    forall x | x in rho ensures SameKids(h.tree, p'.host.tree, rho, x) { assert SameKids(h.tree, p.host.tree, rho, x); }
  }

  /** Once every process has closed what it held, no stray without a pin is left, and if there are no
      others the peer mirrors the owner. */
  lemma CloseRestores(h: Host, p: Peer, rho: map<int, int>)
    requires Covers(h, p, rho) && p.open == {} && Strays(p) <= p.loose
    ensures Mirrors(h, p, rho)
  {
    hide Mirrors, Strays, Held;
    forall x ensures x !in Strays(p) { GoneStray(h, p, rho, x); }
    NoStrays(h, p, rho);
  }

  lemma {:induction false} GoneStray(h: Host, p: Peer, rho: map<int, int>, x: int)
    requires Covers(h, p, rho) && p.open == {} && Strays(p) <= p.loose
    ensures x !in Strays(p)
    decreases if x in p.host.tree.depth && x in p.host.tree.kids then p.host.tree.bound - p.host.tree.depth[x] else 0
  {
    hide Host.Valid, Tree.Valid, Mirrors, Strays, Cut;
    HostTree(p.host);
    if x in Strays(p) {
      RootFacts(p.host.tree);
      ChildFacts(p.host.tree, x, 0);
      GoneStray(h, p, rho, p.host.tree.kids[x][0]);
    }
  }

  // ---------------------------------------------------------------- entries of its own

  /** The peer makes an entry of its own. */
  lemma CoverOwns(h: Host, p: Peer, rho: map<int, int>, op: Op)
    requires Covers(h, p, rho) && op.Make? && Possible(p.host, op)
    ensures var p' := p.(host := Apply(p.host, op));
            Covers(h, p', rho) && Strays(p') == Strays(p) + {op.ino}
  {
    hide Host.Valid, Tree.Valid, Mirrors, Strays, Cut, Keep;
    var p', away, l := p.(host := Apply(p.host, op)), Strays(p), op.ino;
    HostTree(p.host);
    Unnumbered(p.host, l);
    DepthFacts(p.host.tree, op.parent);
    PossibleKeeps(p.host, op);
    CutOwn(p.host.tree, away, op.parent, l);
    assert p.host.name[l := op.name] - (away + {l}) == p.host.name - away;
    assert (if op.isDir then p.host.dirs + {l} else p.host.dirs) - (away + {l}) == p.host.dirs - away;
    CoreValid(p'.host, away + {l});
    MirrorsAlike(h, Core(p, away), Core(p', away + {l}), rho);
    HeldGrows(p, p', op.parent, l);
    AwayIsStrays(h, p', away + {l}, rho);
  }

  lemma CutOwn(t: Tree<int>, away: set<int>, q: int, l: int)
    requires t.Valid() && Closed(t, away) && q in t.kids && q in t.depth && l !in t.kids
    ensures Cut(Grow(t, q, l), away + {l}).kids == Cut(t, away).kids && Cut(Grow(t, q, l), away + {l}).root == Cut(t, away).root
    ensures Closed(Grow(t, q, l), away + {l})
  {
    hide Tree.Valid, Keep;
    RootFacts(t);
    var u, v := Cut(Grow(t, q, l), away + {l}), Cut(t, away);
    KeepAppend([l], t.kids[q], away + {l});
    KeepOne(l, away + {l});
    forall p | p in v.kids ensures p in u.kids && u.kids[p] == v.kids[p] {
      if l in t.kids[p] { KidOf(t, p, l); }
      KeepSame(t.kids[p], away + {l}, away);
    }
    forall y | y in Grow(t, q, l).parent && Grow(t, q, l).parent[y] in away + {l} ensures y in away + {l} {
      if y != l { HungBelow(t, y); }
    }
  }

  lemma CoverOpens(h: Host, p: Peer, rho: map<int, int>, x: int)
    requires Covers(h, p, rho)
    ensures Covers(h, p.(open := p.open + {x}), rho) && Strays(p.(open := p.open + {x})) == Strays(p)
  {
    hide Host.Valid, Mirrors, Strays, Cut, Closed;
    SameStrays(p, p.(open := p.open + {x}));
  }

  /** The peer removes an entry of its own that nobody holds. */
  lemma CoverDisowns(h: Host, p: Peer, rho: map<int, int>, x: int)
    requires Covers(h, p, rho) && x in Strays(p) && Possible(p.host, Drop(x))
    ensures Covers(h, Freed(p, x), rho) && x !in Strays(Freed(p, x))
  {
    hide Host.Valid, Mirrors, Strays, Cut, Closed, Freed;
    FreedCovers(h, p, rho, x);
  }

  /** The owner removes an entry that a process on the peer holds and makes another of that name in
      the same place: the leftover is in the way, and the second message stops the kernel. */
  lemma RecreatedWhileHeld(h: Host, p: Peer, rho: map<int, int>, x: int, op: Op, l: int)
    requires Covers(h, p, rho) && Possible(h, Drop(x)) && x in rho && rho[x] in p.open
    requires var h' := Apply(h, Drop(x)); h'.Valid() && Legal(h', op) && op.Make?
    requires op.parent == h.tree.parent[x] && op.name == h.name[x]
    ensures var p' := DeliverRemove(p, MsgOf(h, Drop(x)));
            p'.host.Valid() && (Unmistaken(p', h.name[op.parent]) ==> Deliver(p', Print(MsgOf(Apply(h, Drop(x)), op)), l).None?)
  {
    hide Host.Valid, Mirrors, Strays, Cut, Closed, Freed, Held, Deliver, DeliverRemove, Unmistaken, TakenFor, StrayTaken;
    CoverFacts(h, p, rho);
    var h', p', rho' := Apply(h, Drop(x)), DeliverRemove(p, MsgOf(h, Drop(x))), rho - {x};
    CoverRemoves(h, p, rho, Drop(x));
    Leftover(h, p, rho, x);
    if Unmistaken(p', h.name[op.parent]) { CoverMake(h', p', rho', op, l); }
  }

  /** The leftover hangs where it hung, under its name. */
  lemma Leftover(h: Host, p: Peer, rho: map<int, int>, x: int)
    requires Covers(h, p, rho) && Possible(h, Drop(x)) && x in rho && rho[x] in p.open
    ensures var p' := DeliverRemove(p, MsgOf(h, Drop(x)));
            && p'.host == p.host && h.tree.parent[x] in rho && h.tree.parent[x] in h.name && Apply(h, Drop(x)).name == h.name - {x}
            && StrayTaken(p', rho[h.tree.parent[x]], h.name[x])
  {
    hide Host.Valid, Tree.Valid, Mirrors, Strays, Closed, Held, MirrorOf, FindBy, Keep, Removed;
    CoverFacts(h, p, rho);
    HostTree(h);
    ParentFacts(h.tree, x);
    CoverRemoves(h, p, rho, Drop(x));
    DropHere(h, p, rho, Drop(x));
    DropMsg(h, Drop(x));
    InoFound(p.host, rho[x]);
    var c, p' := Core(p, Strays(p)), DeliverRemove(p, MsgOf(h, Drop(x)));
    MirrorFacts(h, c, rho);
    ImageOfParent(h.tree, c.host.tree, rho, x);
    var y := rho[x];
    assert y in Strays(p') && p'.host.tree.parent[y] == rho[h.tree.parent[x]] && p'.host.name[y] == h.name[x];
  }
}
