/**
 The mirroring protocol as a two-node system: an owner that creates and removes entries and
 prints a message for each, a queue of messages, and a peer that parses each message and
 creates or removes a mirror entry, keeping the inode mapping table.
 */
module Mirroring {
  import opened Trees
  import opened Searches
  import opened Isomorphism
  import opened Decimal
  import opened Wire
  import opened MappTables

  /** The name space of one machine.  Nodes are inode numbers: without hard links an entry and
      its inode are one.  `last` is the highest inode number handed out. */
  datatype Host = Host(tree: Tree<int>, name: map<int, string>, dirs: set<int>, last: int) {

    ghost predicate Valid() {
      && tree.Valid() && name.Keys == tree.kids.Keys && dirs <= tree.kids.Keys && tree.root in dirs
      && name[tree.root] == "/"
      && (forall x :: x in tree.parent ==> x in name && GoodName(name[x]))
      && (forall x :: x in tree.kids && tree.kids[x] != [] ==> x in dirs)
      && (forall x :: x in tree.kids ==> 0 < x <= last)
      && last <= INT_MAX
    }
  }

  /** A name the protocol can carry: a path component without delimiters that fits its row. */
  predicate GoodName(n: string) { DelimFree(n) && 0 < |n| < ROW_SIZE && '/' !in n }

  function ByName(h: Host, n: string): int -> bool { x => x in h.name && h.name[x] == n }

  function ByIno(i: int): int -> bool { x => x == i }

  /** find_from_all_dentry and find_dentry_by_ino, from the root. */
  ghost function FindBy(h: Host, matches: int -> bool): (r: Found<int>)
    requires h.Valid()
    ensures r.Nothing? <==> forall x :: x in h.tree.parent ==> !matches(x)
    ensures r.Entry? ==> r.node in h.tree.parent && r.node in h.tree.kids && matches(r.node)
  {
    SearchMeets(h, matches);
    First(Visit(h.tree, h.tree.kids.Keys, h.dirs, h.tree.root, 0), matches)
  }

  lemma SearchMeets(h: Host, matches: int -> bool)
    requires h.Valid()
    ensures var r := First(Visit(h.tree, h.tree.kids.Keys, h.dirs, h.tree.root, 0), matches);
            && (r.Nothing? <==> forall x :: x in h.tree.parent ==> !matches(x))
            && (r.Entry? ==> r.node in h.tree.parent && r.node in h.tree.kids && matches(r.node))
  {
    hide Tree.Valid, Visit, Reach;
    RootFacts(h.tree);
    assert forall d :: d in h.tree.kids && h.tree.kids[d] != [] ==> d in h.dirs;
    FindComplete(h.tree, h.tree.kids.Keys, h.dirs, matches);
    forall x | x in h.tree.kids ensures Reach(h.tree, h.tree.kids.Keys, x) { AllReach(h.tree, x); }
    var r := First(Visit(h.tree, h.tree.kids.Keys, h.dirs, h.tree.root, 0), matches);
    if r.Nothing? {
      forall x | x in h.tree.parent ensures !matches(x) { assert Reach(h.tree, h.tree.kids.Keys, x); }
    } else {
      var y := r.node;
      assert matches(y);
    }
  }

  // ---------------------------------------------------------------- the owner

  datatype Op = Make(parent: int, name: string, isDir: bool, ino: int) | Drop(ino: int)

  /** Directory `d` has an entry named `n`. */
  ghost predicate Taken(h: Host, d: int, n: string) {
    exists x :: x in h.tree.parent && h.tree.parent[x] == d && x in h.name && h.name[x] == n
  }

  /** What the owner's own operation requires. */
  ghost predicate Possible(h: Host, op: Op)
    requires h.Valid()
  {
    match op
    case Make(p, n, _, i) => p in h.dirs && GoodName(n) && !Taken(h, p, n) && h.last < i <= INT_MAX
    case Drop(i) => i in h.tree.parent && h.tree.kids[i] == []
  }

  /** create and mkdir add an entry, unlink and rmdir remove a childless one. */
  ghost function Apply(h: Host, op: Op): Host
    requires h.Valid() && Possible(h, op)
  {
    match op
    case Make(p, n, d, i) => Added(h, p, n, d, i)
    case Drop(i) => ParentFacts(h.tree, i); Dropped(h, i, h.tree.Idx(i))
  }

  function Added(h: Host, p: int, n: string, d: bool, i: int): Host
    requires p in h.tree.kids && p in h.tree.depth
  {
    Host(Grow(h.tree, p, i), h.name[i := n], if d then h.dirs + {i} else h.dirs, i)
  }

  function Dropped(h: Host, i: int, k: nat): Host
    requires i in h.tree.parent && h.tree.parent[i] in h.tree.kids && k < |h.tree.kids[h.tree.parent[i]]|
  {
    Host(Prune(h.tree, i, k), h.name - {i}, h.dirs - {i}, h.last)
  }

  /** The message the operation sends. */
  ghost function MsgOf(h: Host, op: Op): Msg
    requires h.Valid() && Possible(h, op)
  {
    match op
    case Make(p, n, d, i) => Msg(CR, i, n, p, h.name[p], d)
    case Drop(i) => ParentFacts(h.tree, i); Msg(RM, i, h.name[i], h.tree.parent[i], h.name[h.tree.parent[i]], i in h.dirs)
  }

  /** Looking the parent's name up on the owner's own tree finds the parent. */
  ghost predicate Resolves(h: Host, p: int)
    requires h.Valid() && p in h.name
  {
    p == h.tree.root || FindBy(h, ByName(h, h.name[p])) == Entry(p)
  }

  /** What the protocol needs besides: room in the table, and a parent that its name finds. */
  ghost predicate Legal(h: Host, op: Op)
    requires h.Valid()
  {
    Possible(h, op) && (op.Make? ==> |h.tree.parent| < SLOTS && Resolves(h, op.parent))
  }

  // ---------------------------------------------------------------- the peer

  /** `open` are the entries that processes on the peer hold, `loose` those that have lost their pin
      and go with their last user and last child. */
  datatype Peer = Peer(host: Host, table: seq<Slot>, open: set<int>, loose: set<int>)

  /** The parent rdma_create works with. */
  ghost function ParentFor(h: Host, n: string): (r: Found<int>)
    requires h.Valid()
    ensures r.Entry? ==> r.node in h.tree.kids
  {
    RootFacts(h.tree);
    if n == h.name[h.tree.root] then Entry(h.tree.root) else FindBy(h, ByName(h, n))
  }

  /** The server's handling of one buffer: rdma_create or rdma_remove.  `l` is the inode number
      the peer will hand out.  None: the server stops the kernel, because the parent is not found,
      is not a directory or already has an entry of that name, or because the name is no path
      component and the lookup fails. */
  ghost function Deliver(p: Peer, buf: string, l: int): Option<Peer>
    requires p.host.Valid()
  {
    match Parse(buf)
    case None => Some(p)
    case Some(m) =>
      if m.kind.CR? then
        var found := ParentFor(p.host, m.parentName);
        if found.Nothing? || BadName(m.name) || found.node !in p.host.dirs || Taken(p.host, found.node, m.name) then None
        else Some(DeliverCreate(p, m, found.node, l))
      else Some(DeliverRemove(p, m))
  }

  /** __lookup_one_len refuses the name. */
  predicate BadName(n: string) { n == [] || '/' in n }

  ghost function DeliverCreate(p: Peer, m: Msg, q: int, l: int): Peer
    requires p.host.Valid() && q in p.host.tree.kids
  {
    Peer(Added(p.host, q, m.name, m.isDir, l), Inserted(p.table, Slot(true, l, m.ino, q, m.parentIno)), p.open, p.loose)
  }

  /** The mirror a removal is about, or 0. */
  function MirrorOf(table: seq<Slot>, m: Msg): int {
    var i := FirstMatch(table, (m.ino, m.parentIno));
    if i < |table| then table[i].localIno else 0
  }

  /** The slot is freed.  A mirror that is found, has no children and is not held is freed; one that
      is held or has children stays, without its pin unless wjfs_rmdir_rdma refuses to remove a
      directory that is not empty. */
  ghost function DeliverRemove(p: Peer, m: Msg): Peer
    requires p.host.Valid()
  {
    var mine := MirrorOf(p.table, m);
    var p' := p.(table := Removed(p.table, (m.ino, m.parentIno)));
    if FindBy(p.host, ByIno(mine)).Nothing? || mine !in p.host.tree.parent then p'
    else if p.host.tree.kids[mine] == [] && mine !in p.open then Freed(p', mine)
    else if p.host.tree.kids[mine] == [] || !m.isDir then p'.(loose := p.loose + {mine})
    else p'
  }

  /** Nothing keeps the entry any longer. */
  ghost predicate Unheld(p: Peer, x: int) {
    x in p.loose && x in p.host.tree.parent && x in p.host.tree.kids && p.host.tree.kids[x] == [] && x !in p.open
  }

  /** The last dput of an entry, which goes on to its parent. */
  ghost function Freed(p: Peer, x: int): Peer
    requires p.host.Valid() && x in p.host.tree.parent && p.host.tree.kids[x] == []
    decreases if x in p.host.tree.depth then p.host.tree.depth[x] else 0
  {
    ParentFacts(p.host.tree, x);
    PossibleKeeps(p.host, Drop(x));
    var p' := Peer(Apply(p.host, Drop(x)), p.table, p.open, p.loose - {x});
    if Unheld(p', p.host.tree.parent[x]) then Freed(p', p.host.tree.parent[x]) else p'
  }

  // ---------------------------------------------------------------- correspondence

  /** The table entries that a renaming stands for. */
  ghost function Links(t: Tree<int>, rho: map<int, int>): map<Key, Key>
    requires t.Valid() && t.kids.Keys <= rho.Keys
  {
    map x | x in t.parent :: (x, t.parent[x]) := (rho[x], rho[t.parent[x]])
  }

  ghost predicate SameLabels(h: Host, u: Host, rho: map<int, int>) {
    forall x :: x in rho ==>
      && x in h.name && rho[x] in u.name && u.name[rho[x]] == h.name[x] && (x in h.dirs <==> rho[x] in u.dirs)
  }

  /** The peer mirrors the owner's name space `h`: `rho` maps each of its entries to its mirror,
      with the same names, kinds and list order, and the table records exactly `rho`. */
  ghost predicate Mirrors(h: Host, p: Peer, rho: map<int, int>) {
    && h.Valid() && p.host.Valid() && Shape(h.tree, p.host.tree, rho) && SameLabels(h, p.host, rho)
    && |p.table| == SLOTS && Unique(p.table) && Used(p.table) == |h.tree.parent|
    && Entries(p.table) == Links(h.tree, rho) && p.loose == {}
  }

  lemma MirrorFacts(h: Host, p: Peer, rho: map<int, int>)
    requires Mirrors(h, p, rho)
    ensures h.Valid() && p.host.Valid() && Shape(h.tree, p.host.tree, rho) && SameLabels(h, p.host, rho)
    ensures |p.table| == SLOTS && Unique(p.table) && Used(p.table) == |h.tree.parent|
    ensures Entries(p.table) == Links(h.tree, rho) && p.loose == {}
    ensures rho.Keys == h.tree.kids.Keys && h.tree.root in rho && rho[h.tree.root] == p.host.tree.root
    ensures forall x :: x in rho ==> rho[x] in p.host.tree.kids
  {
    ShapeFacts(h.tree, p.host.tree, rho);
  }

  // The owner's invariant.

  lemma PossibleKeeps(h: Host, op: Op)
    requires h.Valid() && Possible(h, op)
    ensures Apply(h, op).Valid()
  {
    hide Tree.Valid;
    RootFacts(h.tree);
    match op
    case Make(p, n, d, i) =>
      GrowValid(h.tree, p, i);
    case Drop(i) =>
      ParentFacts(h.tree, i);
      PruneValid(h.tree, i, h.tree.Idx(i));
  }

  /** Entry `x` is in both name spaces or in neither, with the same name, kind and parent. */
  ghost predicate SameEntry(h: Host, g: Host, x: int) {
    && (x in g.tree.kids <==> x in h.tree.kids) && (x in g.dirs <==> x in h.dirs)
    && (x in g.name <==> x in h.name) && (x in h.name && x in g.name ==> g.name[x] == h.name[x])
    && (x in g.tree.parent <==> x in h.tree.parent)
    && (x in h.tree.parent && x in g.tree.parent ==> g.tree.parent[x] == h.tree.parent[x])
  }

  /** `g` is `h` with the entry `i` at the head of directory `p`, under the name, of the kind, and with
      nothing else changed. */
  ghost predicate Gains(h: Host, g: Host, p: int, n: string, isDir: bool, i: int) {
    && i !in h.tree.kids && i in g.tree.kids && g.tree.kids[i] == [] && p in h.tree.kids && p in g.tree.kids
    && i in g.tree.parent && g.tree.parent[i] == p && i in g.name && g.name[i] == n && (i in g.dirs <==> isDir)
    && g.tree.kids[p] == [i] + h.tree.kids[p] && g.tree.root == h.tree.root && g.last == i
    && (forall x :: x != i ==> SameEntry(h, g, x))
    && (forall x :: x in h.tree.kids && x != p ==> x in g.tree.kids && g.tree.kids[x] == h.tree.kids[x])
  }

  /** `g` is `h` without the entry `i`, and with nothing else changed. */
  ghost predicate Loses(h: Host, g: Host, i: int) {
    && i in h.tree.parent && i !in g.tree.kids && i !in g.name && i !in g.dirs && i !in g.tree.parent
    && g.tree.root == h.tree.root && g.last == h.last
    && (forall x :: x != i ==> SameEntry(h, g, x))
    && (forall x :: x in g.tree.kids ==> x in h.tree.kids && forall y :: y in g.tree.kids[x] <==> y in h.tree.kids[x] && y != i)
  }

  /** create and mkdir under a free name that the protocol can carry always go through, and add
      exactly the new entry. */
  lemma MakeAdds(h: Host, p: int, n: string, isDir: bool, i: int)
    requires h.Valid() && p in h.dirs && !Taken(h, p, n) && h.last < i <= INT_MAX && 0 < |n| < ROW_SIZE
    requires forall k :: 0 <= k < |n| ==> n[k] != ' ' && n[k] != '\r' && n[k] != '\n' && n[k] != '/'
    ensures Possible(h, Make(p, n, isDir, i)) && Gains(h, Apply(h, Make(p, n, isDir, i)), p, n, isDir, i)
  {
    hide Tree.Valid, Taken;
    RootFacts(h.tree);
  }

  /** unlink and rmdir of an entry without children always go through, and take exactly that entry
      away. */
  lemma DropTakes(h: Host, i: int)
    requires h.Valid() && i in h.tree.parent && h.tree.kids[i] == []
    ensures Possible(h, Drop(i)) && Loses(h, Apply(h, Drop(i)), i)
  {
    hide Tree.Valid;
    RootFacts(h.tree);
    ParentFacts(h.tree, i);
    var g, p, k := Apply(h, Drop(i)), h.tree.parent[i], h.tree.Idx(i);
    forall x | x in g.tree.kids ensures forall y :: y in g.tree.kids[x] <==> y in h.tree.kids[x] && y != i {
      if x == p { WithoutOne(h.tree, p, k); } else { NotBelow(h.tree, x, i); }
    }
  }

  lemma WithoutOne(t: Tree<int>, p: int, k: nat)
    requires t.Valid() && p in t.kids && k < |t.kids[p]|
    ensures forall y :: y in Without(t.kids[p], k) <==> y in t.kids[p] && y != t.kids[p][k]
  {
    var s := t.kids[p];
    forall y ensures y in Without(s, k) <==> y in s && y != s[k] {
      if y in Without(s, k) {
        var j :| 0 <= j < |Without(s, k)| && Without(s, k)[j] == y;
        assert y == s[if j < k then j else j + 1];
      }
      if y in s && y != s[k] { StillIn(s, k, y); }
    }
  }

  lemma NotBelow(t: Tree<int>, p: int, x: int)
    requires t.Valid() && p in t.kids && x in t.parent && t.parent[x] != p
    ensures x !in t.kids[p]
  {
  }

  /** What the server's creation does to the name space, by the fields of the message. */
  lemma DeliverAdds(p: Peer, buf: string, l: int)
    requires p.host.Valid() && Parse(buf).Some? && Parse(buf).value.kind.CR? && l !in p.host.tree.kids
    ensures var m, r, q := Parse(buf).value, Deliver(p, buf, l), ParentFor(p.host, Parse(buf).value.parentName);
            && (r.None? <==> q.Nothing? || q.node !in p.host.dirs || m.name == [] || '/' in m.name || Taken(p.host, q.node, m.name))
            && (r.Some? ==>
                && q.Entry? && Gains(p.host, r.value.host, q.node, m.name, m.isDir, l) && r.value.open == p.open
                && r.value.table == Inserted(p.table, Slot(true, l, m.ino, q.node, m.parentIno)) && r.value.loose == p.loose)
  {
    hide Tree.Valid, Parse, Taken, ParentFor, Gains;
    var m, q := Parse(buf).value, ParentFor(p.host, Parse(buf).value.parentName);
    if q.Entry? { AddedGains(p.host, q.node, m.name, m.isDir, l); }
  }

  lemma AddedGains(h: Host, p: int, n: string, isDir: bool, i: int)
    requires h.Valid() && p in h.tree.kids && i !in h.tree.kids
    ensures p in h.tree.depth && Gains(h, Added(h, p, n, isDir, i), p, n, isDir, i)
  {
    hide Tree.Valid;
    RootFacts(h.tree);
  }

  /** What a legal operation prints fits the server's rows and parses back. */
  lemma MessageArrives(h: Host, op: Op)
    requires h.Valid() && Possible(h, op)
    ensures Fits(Print(MsgOf(h, op))) && Parse(Print(MsgOf(h, op))) == Some(MsgOf(h, op))
  {
    hide Tree.Valid, Print, Parse, Fits, Split;
    RootFacts(h.tree);
    if op.Drop? { ParentFacts(h.tree, op.ino); }
    MsgRoundTrip(MsgOf(h, op));
    PrintedFits(MsgOf(h, op));
  }

  /** What a creation and a removal send. */
  lemma MessageText(h: Host, op: Op)
    requires h.Valid() && Possible(h, op)
    ensures op.Make? ==> op.parent in h.name
    ensures op.Drop? ==> op.ino in h.tree.parent && op.ino in h.name && h.tree.parent[op.ino] in h.name
    ensures op.Make? ==>
              Print(MsgOf(h, op))
              == "CR" + " " + (PrintInt(op.ino) + " " + (op.name + " " + (PrintInt(op.parent) + " " + (h.name[op.parent] + " "
                 + if op.isDir then "1111" else "0000"))))
    ensures op.Drop? ==>
              Print(MsgOf(h, op))
              == "RM" + " " + (PrintInt(op.ino) + " " + (h.name[op.ino] + " " + (PrintInt(h.tree.parent[op.ino]) + " "
                 + (h.name[h.tree.parent[op.ino]] + " " + if op.ino in h.dirs then "1111" else "0000"))))
  {
    hide Tree.Valid, Print, PrintInt;
    RootFacts(h.tree);
    if op.Drop? { ParentFacts(h.tree, op.ino); }
    PrintedText(MsgOf(h, op));
  }

  // Searching on the peer.

  lemma FindRenamed(h: Host, p: Peer, rho: map<int, int>, f: int -> bool, g: int -> bool)
    requires Mirrors(h, p, rho) && forall x :: x in rho ==> (f(x) <==> g(rho[x]))
    ensures FindBy(h, f).Nothing? ==> FindBy(p.host, g).Nothing?
    ensures FindBy(h, f).Entry? ==> FindBy(h, f).node in rho && FindBy(p.host, g) == Entry(rho[FindBy(h, f).node])
  {
    hide Tree.Valid, Visit, First, Shape, Mirrors;
    MirrorFacts(h, p, rho);
    VisitRenamed(h.tree, p.host.tree, rho, h.dirs, p.host.dirs, h.tree.root, 0);
    var s := Visit(h.tree, h.tree.kids.Keys, h.dirs, h.tree.root, 0);
    forall k | 0 <= k < |s| ensures s[k] in rho && (f(s[k]) <==> g(rho[s[k]])) {
      var x := s[k];
      assert x in rho && (f(x) <==> g(rho[x]));
    }
    FirstRenamed(rho, s, f, g);
  }

  /** The entry the peer will take for the parent `p` of a new entry, as the owner's tree has it. */
  ghost function TakenFor(h: Host, p: int): (q: int)
    requires h.Valid() && p in h.dirs
    ensures q in h.tree.kids && (q == p <==> Resolves(h, p))
  {
    RootFacts(h.tree);
    assert p == h.tree.root || (p in h.tree.parent && ByName(h, h.name[p])(p));
    if p == h.tree.root then p else FindBy(h, ByName(h, h.name[p])).node
  }

  lemma ParentFound(h: Host, p: Peer, rho: map<int, int>, d: int)
    requires Mirrors(h, p, rho) && d in h.dirs
    ensures TakenFor(h, d) in rho && ParentFor(p.host, h.name[d]) == Entry(rho[TakenFor(h, d)])
  {
    hide Tree.Valid, Shape, Mirrors, FindBy;
    MirrorFacts(h, p, rho);
    RootFacts(h.tree);
    if d != h.tree.root {
      assert ByName(h, h.name[d])(d);
      FindRenamed(h, p, rho, ByName(h, h.name[d]), ByName(p.host, h.name[d]));
    }
  }

  /** The peer puts the mirror of a new entry below the mirror of that entry, unless that stops
      the kernel. */
  lemma DeliverMake(h: Host, p: Peer, rho: map<int, int>, op: Op, l: int)
    requires Mirrors(h, p, rho) && op.Make? && Possible(h, op)
    ensures var q := TakenFor(h, op.parent);
            && q in rho && rho[q] in p.host.tree.kids
            && Deliver(p, Print(MsgOf(h, op)), l)
               == if q in h.dirs && !Taken(h, q, op.name) then Some(DeliverCreate(p, MsgOf(h, op), rho[q], l)) else None
  {
    hide Tree.Valid, Parse, Print, Shape, Mirrors, Taken, TakenFor, ParentFor;
    MirrorFacts(h, p, rho);
    MessageArrives(h, op);
    ParentFound(h, p, rho, op.parent);
    TakenRenamed(h, p, rho, TakenFor(h, op.parent), op.name);
  }

  lemma TakenRenamed(h: Host, p: Peer, rho: map<int, int>, q: int, n: string)
    requires Mirrors(h, p, rho) && q in rho
    ensures Taken(h, q, n) <==> Taken(p.host, rho[q], n)
  {
    hide Tree.Valid, Shape, Mirrors;
    MirrorFacts(h, p, rho);
    var t, u := h.tree, p.host.tree;
    RootFacts(t);
    RootFacts(u);
    if Taken(h, q, n) {
      var x :| x in t.parent && t.parent[x] == q && x in h.name && h.name[x] == n;
      ImageOfParent(t, u, rho, x);
      var y := rho[x];
      assert y in u.parent && u.parent[y] == rho[q] && y in p.host.name && p.host.name[y] == n;
    }
    if Taken(p.host, rho[q], n) {
      var y :| y in u.parent && u.parent[y] == rho[q] && y in p.host.name && p.host.name[y] == n;
      ParentFacts(u, y);
      var x := Onto(t, u, rho, y);
      ImageOfParent(t, u, rho, x);
      SameImage(t, u, rho, t.parent[x], q);
      assert x in t.parent && t.parent[x] == q && x in h.name && h.name[x] == n;
    }
  }

  // Creating.

  lemma LinkIn(t: Tree<int>, rho: map<int, int>, x: int)
    requires t.Valid() && t.kids.Keys <= rho.Keys && x in t.parent
    ensures t.parent[x] in rho && x in rho
    ensures (x, t.parent[x]) in Links(t, rho) && Links(t, rho)[(x, t.parent[x])] == (rho[x], rho[t.parent[x]])
  {
  }

  lemma LinkOut(t: Tree<int>, rho: map<int, int>, k: Key)
    requires t.Valid() && t.kids.Keys <= rho.Keys && k in Links(t, rho)
    ensures k.0 in t.parent && k.1 == t.parent[k.0] && k.0 in rho && k.1 in rho
    ensures Links(t, rho)[k] == (rho[k.0], rho[k.1])
  {
  }

  lemma LinksGrow(t: Tree<int>, rho: map<int, int>, p: int, x: int, l: int)
    requires t.Valid() && t.kids.Keys == rho.Keys && p in t.kids && p in t.depth && x !in t.kids
    ensures Grow(t, p, x).Valid()
    ensures Links(Grow(t, p, x), rho[x := l]) == Links(t, rho)[(x, p) := (l, rho[p])]
    ensures (x, p) !in Links(t, rho)
  {
    hide Tree.Valid, Links;
    GrowValid(t, p, x);
    RootFacts(t);
    var u, rho' := Grow(t, p, x), rho[x := l];
    var m, m' := Links(u, rho'), Links(t, rho)[(x, p) := (l, rho[p])];
    if (x, p) in Links(t, rho) { LinkOut(t, rho, (x, p)); }
    forall k | k in m ensures k in m' && m[k] == m'[k] {
      LinkOut(u, rho', k);
      if k.0 != x { LinkIn(t, rho, k.0); ParentFacts(t, k.0); }
    }
    forall k | k in m' ensures k in m {
      if k != (x, p) { LinkOut(t, rho, k); }
      LinkIn(u, rho', k.0);
    }
  }

  lemma LabelsGrow(h: Host, u: Host, rho: map<int, int>, p: int, n: string, d: bool, x: int, l: int)
    requires SameLabels(h, u, rho) && p in rho && x !in rho && (forall y :: y in rho ==> rho[y] != l)
    requires p in h.tree.kids && p in h.tree.depth && rho[p] in u.tree.kids && rho[p] in u.tree.depth
    requires x !in h.dirs && l !in u.dirs
    ensures SameLabels(Added(h, p, n, d, x), Added(u, rho[p], n, d, l), rho[x := l])
  {
  }

  lemma NewMirror(h: Host, p: Peer, rho: map<int, int>, l: int)
    requires Mirrors(h, p, rho) && l !in p.host.tree.kids
    ensures !IsMirror(p.table, l)
  {
    hide Tree.Valid, Shape, Mirrors, Entries;
    MirrorFacts(h, p, rho);
    RootFacts(h.tree);
    MirrorIffEntry(p.table, l);
    forall k | k in Entries(p.table) ensures Entries(p.table)[k].0 != l {
      var x :| x in h.tree.parent && k == (x, h.tree.parent[x]);
    }
  }

  lemma TableGrow(h: Host, p: Peer, rho: map<int, int>, q: int, x: int, l: int)
    requires Mirrors(h, p, rho) && q in h.tree.kids && q in h.tree.depth && x !in h.tree.kids && l !in p.host.tree.kids
    requires |h.tree.parent| < SLOTS && q in rho
    ensures var s := Inserted(p.table, Slot(true, l, x, rho[q], q));
            && |s| == SLOTS && Unique(s) && Used(s) == |h.tree.parent| + 1
            && Grow(h.tree, q, x).Valid() && Entries(s) == Links(Grow(h.tree, q, x), rho[x := l])
  {
    hide Tree.Valid, Shape, Mirrors, Links, Unique, Used, Entries, FirstFree, Inserted;
    MirrorFacts(h, p, rho);
    NewMirror(h, p, rho, l);
    FullIffUsed(p.table);
    LinksGrow(h.tree, rho, q, x, l);
    InsertRefines(p.table, Slot(true, l, x, rho[q], q));
    InsertedSize(p.table, Slot(true, l, x, rho[q], q));
  }

  lemma InsertedSize(s: seq<Slot>, e: Slot)
    ensures |Inserted(s, e)| == |s|
  {
  }

  /** A legal creation is mirrored. */
  lemma CreateMirrors(h: Host, p: Peer, rho: map<int, int>, op: Op, l: int)
    requires Mirrors(h, p, rho) && Legal(h, op) && op.Make? && p.host.last < l <= INT_MAX
    ensures op.parent in rho && rho[op.parent] in p.host.tree.kids
    ensures Mirrors(Apply(h, op), DeliverCreate(p, MsgOf(h, op), rho[op.parent], l), rho[op.ino := l])
  {
    hide Tree.Valid, Shape, Mirrors, SameLabels, Links, Unique, Used, Entries, Inserted, Resolves;
    MirrorFacts(h, p, rho);
    CreateBoth(h, p, rho, op, l);
    TableGrow(h, p, rho, op.parent, op.ino, l);
    MirrorsIntro(Apply(h, op), DeliverCreate(p, MsgOf(h, op), rho[op.parent], l), rho[op.ino := l]);
  }

  /** The name-space half. */
  lemma CreateBoth(h: Host, p: Peer, rho: map<int, int>, op: Op, l: int)
    requires Mirrors(h, p, rho) && Possible(h, op) && op.Make? && p.host.last < l <= INT_MAX
    ensures op.parent in rho && rho[op.parent] in p.host.tree.kids && op.parent in h.tree.depth && op.ino !in h.tree.kids
    ensures rho[op.parent] in p.host.tree.depth && l !in p.host.tree.kids
    ensures var u := Added(p.host, rho[op.parent], op.name, op.isDir, l);
            && Apply(h, op).Valid() && u.Valid()
            && Shape(Apply(h, op).tree, u.tree, rho[op.ino := l]) && SameLabels(Apply(h, op), u, rho[op.ino := l])
    ensures |Apply(h, op).tree.parent| == |h.tree.parent| + 1
  {
    hide Tree.Valid, Shape, Mirrors, Grow, Taken;
    MirrorFacts(h, p, rho);
    RootFacts(h.tree);
    var op' := Make(rho[op.parent], op.name, op.isDir, l);
    TakenRenamed(h, p, rho, op.parent, op.name);
    assert Possible(p.host, op');
    PossibleKeeps(h, op);
    PossibleKeeps(p.host, op');
    GrowShape(h.tree, p.host.tree, rho, op.parent, op.ino, l);
    LabelsGrow(h, p.host, rho, op.parent, op.name, op.isDir, op.ino, l);
    ParentGrows(h.tree, op.parent, op.ino);
  }

  lemma ParentGrows(t: Tree<int>, p: int, x: int)
    requires p in t.kids && p in t.depth && x !in t.parent
    ensures |Grow(t, p, x).parent| == |t.parent| + 1
  {
  }

  lemma MirrorsIntro(h: Host, p: Peer, rho: map<int, int>)
    requires h.Valid() && p.host.Valid() && Shape(h.tree, p.host.tree, rho) && SameLabels(h, p.host, rho)
    requires h.tree.kids.Keys <= rho.Keys && |p.table| == SLOTS && Unique(p.table) && Used(p.table) == |h.tree.parent|
    requires Entries(p.table) == Links(h.tree, rho) && p.loose == {}
    ensures Mirrors(h, p, rho)
  {
  }

  /** If the new entry is mirrored at all, its mirror hangs below the mirror of its parent. */
  lemma OnlyRightPlace(h: Host, p: Peer, rho: map<int, int>, op: Op, l: int, q: int, rho': map<int, int>)
    requires Mirrors(h, p, rho) && Possible(h, op) && op.Make? && |h.tree.parent| < SLOTS && l !in p.host.tree.kids
    requires q in rho && rho[q] in p.host.tree.kids
    requires Mirrors(Apply(h, op), DeliverCreate(p, MsgOf(h, op), rho[q], l), rho')
    ensures q == op.parent
  {
    hide Tree.Valid, Shape, Mirrors, SameLabels, Links, Unique, Used, Entries, Inserted, FirstFree;
    MirrorFacts(h, p, rho);
    var h', p' := Apply(h, op), DeliverCreate(p, MsgOf(h, op), rho[q], l);
    var e := Slot(true, l, op.ino, rho[q], op.parent);
    MirrorFacts(h', p', rho');
    RootFacts(h.tree);
    NewMirror(h, p, rho, l);
    FullIffUsed(p.table);
    NewKey(h.tree, rho, op.parent, op.ino);
    InsertRefines(p.table, e);
    LinkIn(h'.tree, rho', op.ino);
    if op.parent != h.tree.root {
      LinkIn(h.tree, rho, op.parent);
      LinkIn(h'.tree, rho', op.parent);
    }
    SameImage(h.tree, p.host.tree, rho, q, op.parent);
  }

  lemma NewKey(t: Tree<int>, rho: map<int, int>, p: int, x: int)
    requires t.Valid() && t.kids.Keys <= rho.Keys && x !in t.kids
    ensures (x, p) !in Links(t, rho)
  {
    hide Links;
    if (x, p) in Links(t, rho) { LinkOut(t, rho, (x, p)); }
  }

  lemma SameImage(h: Tree<int>, u: Tree<int>, rho: map<int, int>, x: int, y: int)
    requires Shape(h, u, rho) && x in rho && y in rho
    ensures rho[x] == rho[y] ==> x == y
  {
    hide Tree.Valid;
  }

  /** With a full table the mirror is not recorded. */
  lemma NoRoom(h: Host, p: Peer, rho: map<int, int>, op: Op, l: int, q: int, rho': map<int, int>)
    requires Mirrors(h, p, rho) && Possible(h, op) && op.Make? && q in p.host.tree.kids
    requires Mirrors(Apply(h, op), DeliverCreate(p, MsgOf(h, op), q, l), rho')
    ensures |h.tree.parent| < SLOTS
  {
    hide Tree.Valid, Shape, Mirrors, SameLabels, Links, Unique, Used, Entries, FirstFree;
    MirrorFacts(h, p, rho);
    RootFacts(h.tree);
    MirrorFacts(Apply(h, op), DeliverCreate(p, MsgOf(h, op), q, l), rho');
    DepthFacts(h.tree, op.parent);
    ParentGrows(h.tree, op.parent, op.ino);
    FullIffUsed(p.table);
    FullIffUsed(DeliverCreate(p, MsgOf(h, op), q, l).table);
  }

  /** Delivering the message of a creation keeps the mirror exactly when the operation was legal:
      the parent's name finds the parent, and the table has room. */
  lemma CreateMirroredIffLegal(h: Host, p: Peer, rho: map<int, int>, op: Op, l: int)
    requires Mirrors(h, p, rho) && Possible(h, op) && op.Make? && p.host.last < l <= INT_MAX
    ensures var r := Deliver(p, Print(MsgOf(h, op)), l);
            r.Some? && (exists rho' :: Mirrors(Apply(h, op), r.value, rho')) <==> Legal(h, op)
  {
    hide Tree.Valid, Shape, Mirrors, Deliver, DeliverCreate, Resolves, Print, Apply, Taken;
    DeliverMake(h, p, rho, op, l);
    MirrorFacts(h, p, rho);
    var q := TakenFor(h, op.parent);
    if Legal(h, op) {
      CreateMirrors(h, p, rho, op, l);
      assert Mirrors(Apply(h, op), Deliver(p, Print(MsgOf(h, op)), l).value, rho[op.ino := l]);
    } else if Deliver(p, Print(MsgOf(h, op)), l).Some? {
      var h', p' := Apply(h, op), Deliver(p, Print(MsgOf(h, op)), l).value;
      forall rho' ensures !Mirrors(h', p', rho') {
        if Mirrors(h', p', rho') {
          NoRoom(h, p, rho, op, l, rho[q], rho');
          OnlyRightPlace(h, p, rho, op, l, q, rho');
        }
      }
    }
  }

  // Removing.

  lemma LinksPrune(t: Tree<int>, rho: map<int, int>, x: int)
    requires t.Valid() && t.kids.Keys == rho.Keys && x in t.parent && x in t.kids && t.kids[x] == []
    requires t.parent[x] in t.kids
    ensures Prune(t, x, t.Idx(x)).Valid()
    ensures Links(Prune(t, x, t.Idx(x)), rho - {x}) == Links(t, rho) - {(x, t.parent[x])}
  {
    hide Tree.Valid, Links;
    ParentFacts(t, x);
    PruneValid(t, x, t.Idx(x));
    var u, rho' := Prune(t, x, t.Idx(x)), rho - {x};
    var m, m' := Links(u, rho'), Links(t, rho) - {(x, t.parent[x])};
    forall k | k in m ensures k in m' && m[k] == m'[k] {
      LinkOut(u, rho', k);
      LinkIn(t, rho, k.0);
    }
    forall k | k in m' ensures k in m {
      LinkOut(t, rho, k);
      LinkIn(u, rho', k.0);
    }
  }

  /** The peer frees the right slot and removes the right mirror, or lets go of it. */
  lemma DeliverDrop(h: Host, p: Peer, rho: map<int, int>, op: Op)
    requires Mirrors(h, p, rho) && Possible(h, op) && op.Drop?
    ensures op.ino in rho && rho[op.ino] in p.host.tree.parent && rho[op.ino] in p.host.tree.kids
    ensures Possible(p.host, Drop(rho[op.ino])) && MirrorOf(p.table, MsgOf(h, op)) == rho[op.ino]
    ensures DeliverRemove(p, MsgOf(h, op))
            == Peer(if rho[op.ino] in p.open then p.host else Apply(p.host, Drop(rho[op.ino])),
                    Removed(p.table, (op.ino, h.tree.parent[op.ino])), p.open,
                    if rho[op.ino] in p.open then {rho[op.ino]} else {})
  {
    hide Tree.Valid, Shape, Mirrors, SameLabels, Links, Unique, Used, Entries, Removed, FirstMatch, FindBy;
    MirrorFacts(h, p, rho);
    SlotOf(h, p, rho, op.ino);
    ParentFacts(h.tree, op.ino);
    ImageOfParent(h.tree, p.host.tree, rho, op.ino);
    ImageIsLeaf(h.tree, p.host.tree, rho, op.ino);
    ParentFacts(p.host.tree, rho[op.ino]);
    InoFound(p.host, rho[op.ino]);
    assert {} + {rho[op.ino]} == {rho[op.ino]};
  }

  lemma SlotOf(h: Host, p: Peer, rho: map<int, int>, x: int)
    requires Mirrors(h, p, rho) && x in h.tree.parent
    ensures var i := FirstMatch(p.table, (x, h.tree.parent[x]));
            i < |p.table| && x in rho && p.table[i].localIno == rho[x]
  {
    hide Tree.Valid, Shape, Mirrors, SameLabels, Links, Unique, Used, Entries, Removed, FirstMatch;
    MirrorFacts(h, p, rho);
    LinkIn(h.tree, rho, x);
    RemoveRefines(p.table, (x, h.tree.parent[x]));
  }

  /** With unique inode numbers the inode search finds the only match, and fails exactly when
      there is none. */
  lemma InoFound(h: Host, x: int)
    requires h.Valid()
    ensures FindBy(h, ByIno(x)) == if x in h.tree.parent then Entry(x) else Nothing
  {
    hide Tree.Valid, FindBy;
    assert ByIno(x)(x);
  }

  lemma ImageIsLeaf(h: Tree<int>, u: Tree<int>, rho: map<int, int>, x: int)
    requires Shape(h, u, rho) && x in rho && x in h.kids && h.kids[x] == []
    ensures rho[x] in u.kids && u.kids[rho[x]] == []
  {
    hide Tree.Valid;
    assert SameKids(h, u, rho, x);
  }

  /** The name-space half of a removal. */
  lemma RemoveBoth(h: Host, p: Peer, rho: map<int, int>, x: int)
    requires Mirrors(h, p, rho) && Possible(h, Drop(x)) && x in rho && Possible(p.host, Drop(rho[x]))
    ensures var h', u' := Apply(h, Drop(x)), Apply(p.host, Drop(rho[x]));
            && h'.Valid() && u'.Valid() && Shape(h'.tree, u'.tree, rho - {x}) && SameLabels(h', u', rho - {x})
            && |h'.tree.parent| == |h.tree.parent| - 1 && h'.tree.kids.Keys == h.tree.kids.Keys - {x}
  {
    hide Tree.Valid, Shape, Mirrors, SameLabels;
    MirrorFacts(h, p, rho);
    RootFacts(h.tree);
    ParentFacts(h.tree, x);
    ParentFacts(p.host.tree, rho[x]);
    PossibleKeeps(h, Drop(x));
    PossibleKeeps(p.host, Drop(rho[x]));
    PruneShape(h.tree, p.host.tree, rho, x);
    InjectiveShape(h.tree, p.host.tree, rho);
    LabelsPrune(h, p.host, rho, x, h.tree.Idx(x), p.host.tree.Idx(rho[x]));
    ParentShrinks(h.tree, x, h.tree.Idx(x));
  }

  lemma InjectiveShape(h: Tree<int>, u: Tree<int>, rho: map<int, int>)
    requires Shape(h, u, rho)
    ensures Injective(rho)
  {
  }

  /** The table half. */
  lemma TablePrune(h: Host, p: Peer, rho: map<int, int>, x: int)
    requires Mirrors(h, p, rho) && x in h.tree.parent && x in h.tree.kids && h.tree.kids[x] == []
    ensures h.tree.parent[x] in h.tree.kids
    ensures var s := Removed(p.table, (x, h.tree.parent[x]));
            && |s| == SLOTS && Unique(s) && Used(s) == |h.tree.parent| - 1
            && Prune(h.tree, x, h.tree.Idx(x)).Valid() && Entries(s) == Links(Prune(h.tree, x, h.tree.Idx(x)), rho - {x})
  {
    hide Tree.Valid, Shape, Mirrors, SameLabels, Links, Unique, Used, Entries, Removed, Prune;
    MirrorFacts(h, p, rho);
    ParentFacts(h.tree, x);
    LinkIn(h.tree, rho, x);
    LinksPrune(h.tree, rho, x);
    RemoveRefines(p.table, (x, h.tree.parent[x]));
    RemovedSize(p.table, (x, h.tree.parent[x]));
  }

  /** The removal of a mirror nobody holds is mirrored. */
  lemma RemoveMirrors(h: Host, p: Peer, rho: map<int, int>, op: Op)
    requires Mirrors(h, p, rho) && Possible(h, op) && op.Drop? && (op.ino in rho ==> rho[op.ino] !in p.open)
    ensures Mirrors(Apply(h, op), DeliverRemove(p, MsgOf(h, op)), rho - {op.ino})
  {
    hide Tree.Valid, Shape, Mirrors, SameLabels, Links, Unique, Used, Entries, Removed, DeliverRemove, Prune;
    MirrorFacts(h, p, rho);
    ParentFacts(h.tree, op.ino);
    DeliverDrop(h, p, rho, op);
    RemoveBoth(h, p, rho, op.ino);
    TablePrune(h, p, rho, op.ino);
    MirrorsIntro(Apply(h, op), DeliverRemove(p, MsgOf(h, op)), rho - {op.ino});
  }

  /** Delivering a removal keeps the mirror exactly when nobody holds the entry's mirror: otherwise
      the name spaces differ. */
  lemma RemoveMirroredIffFree(h: Host, p: Peer, rho: map<int, int>, op: Op)
    requires Mirrors(h, p, rho) && Possible(h, op) && op.Drop?
    ensures (exists rho' :: Mirrors(Apply(h, op), DeliverRemove(p, MsgOf(h, op)).(loose := {}), rho'))
            <==> MirrorOf(p.table, MsgOf(h, op)) !in p.open
  {
    hide Tree.Valid, Shape, Mirrors, DeliverRemove, MirrorOf, Apply;
    MirrorFacts(h, p, rho);
    DeliverDrop(h, p, rho, op);
    var h', p' := Apply(h, op), DeliverRemove(p, MsgOf(h, op)).(loose := {});
    if rho[op.ino] in p.open {
      forall rho' ensures !Mirrors(h', p', rho') {
        if Mirrors(h', p', rho') { OneTooMany(h, p, rho, op, rho'); }
      }
    } else {
      RemoveMirrors(h, p, rho, op);
      assert Mirrors(h', p', rho - {op.ino});
    }
  }

  /** A mirror that outlives its entry mirrors nothing. */
  lemma OneTooMany(h: Host, p: Peer, rho: map<int, int>, op: Op, rho': map<int, int>)
    requires Mirrors(h, p, rho) && Possible(h, op) && op.Drop? && op.ino in rho && rho[op.ino] in p.host.tree.parent
    ensures !Mirrors(Apply(h, op), p.(table := Removed(p.table, (op.ino, h.tree.parent[op.ino]))), rho')
  {
    hide Tree.Valid, Shape, Mirrors, DeliverRemove, SameLabels, Links, Unique, Used, Entries, Removed;
    MirrorFacts(h, p, rho);
    RootFacts(p.host.tree);
    ParentFacts(h.tree, op.ino);
    RemoveRefines(p.table, (op.ino, h.tree.parent[op.ino]));
    var h', p' := Apply(h, op), p.(table := Removed(p.table, (op.ino, h.tree.parent[op.ino])));
    if Mirrors(h', p', rho') {
      MirrorFacts(h', p', rho');
      RootFacts(h'.tree);
      var y := Onto(h'.tree, p'.host.tree, rho', rho[op.ino]);
      LinkIn(h'.tree, rho', y);
      LinkOut(h.tree, rho, (y, h'.tree.parent[y]));
      SameImage(h.tree, p.host.tree, rho, y, op.ino);
    }
  }

  lemma LabelsPrune(h: Host, u: Host, rho: map<int, int>, x: int, i: nat, j: nat)
    requires SameLabels(h, u, rho) && Injective(rho) && x in rho && x in h.tree.parent && rho[x] in u.tree.parent
    requires h.tree.parent[x] in h.tree.kids && i < |h.tree.kids[h.tree.parent[x]]|
    requires u.tree.parent[rho[x]] in u.tree.kids && j < |u.tree.kids[u.tree.parent[rho[x]]]|
    ensures SameLabels(Dropped(h, x, i), Dropped(u, rho[x], j), rho - {x})
  {
  }

  lemma ParentShrinks(t: Tree<int>, x: int, i: nat)
    requires x in t.parent && t.parent[x] in t.kids && i < |t.kids[t.parent[x]]|
    ensures |Prune(t, x, i).parent| == |t.parent| - 1
  {
    assert (t.parent - {x}).Keys == t.parent.Keys - {x};
    assert |t.parent| == |t.parent.Keys| && |t.parent - {x}| == |(t.parent - {x}).Keys|;
  }

  lemma RemovedSize(s: seq<Slot>, k: Key)
    ensures |Removed(s, k)| == |s|
  {
  }

  // When a parent's name finds it.

  lemma UniqueNameResolves(h: Host, p: int)
    requires h.Valid() && p in h.dirs && forall x :: x in h.tree.parent && x in h.name && h.name[x] == h.name[p] ==> x == p
    ensures Resolves(h, p)
  {
    hide Tree.Valid, FindBy;
    RootFacts(h.tree);
    assert ByName(h, h.name[p])(p);
    if p != h.tree.root {
      var y := FindBy(h, ByName(h, h.name[p])).node;
      assert ByName(h, h.name[p])(y);
    }
  }
}
