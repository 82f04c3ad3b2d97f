/**
 The peer's server: its name space and its mapping table, changed in place by each message.
 */
module Servers {
  import opened Trees
  import opened Searches
  import opened Isomorphism
  import opened Decimal
  import opened Wire
  import opened MappTables
  import opened Mirroring
  import opened Covering
  import opened MirrorRuns

  /** A create or remove message has all its tokens. */
  predicate WellFormed(buf: string) {
    Fits(buf) && (|buf| >= 2 && (buf[..2] == "CR" || buf[..2] == "RM") ==> Parse(buf).Some?)
  }

  class Server {
    var host: Host
    var open: set<int>
    var loose: set<int>
    const table: MappTable

    constructor (h: Host)
      requires h.Valid()
      ensures host == h && open == {} && loose == {} && fresh(table) && fresh(table.slots) && |table.slots[..]| == SLOTS
      ensures forall i :: 0 <= i < SLOTS ==> !table.slots[i].used
    {
      host, open, loose := h, {}, {};
      table := new MappTable();
    }

    ghost function View(): Peer
      reads this, table, table.slots
    {
      Peer(host, table.slots[..], open, loose)
    }

    /** lookup_one_len: whether directory `d` has an entry named `n`. */
    method HasEntry(d: int, n: string) returns (found: bool)
      requires host.Valid() && d in host.tree.kids
      ensures found <==> Taken(host, d, n)
    {
      hide Tree.Valid;
      var t := host.tree;
      var i := 0;
      while i < |t.kids[d]|
        invariant i <= |t.kids[d]|
        invariant forall j :: 0 <= j < i ==> t.kids[d][j] in host.name && host.name[t.kids[d][j]] != n
      {
        ChildFacts(t, d, i);
        var x := t.kids[d][i];
        if host.name[x] == n {
          assert x in t.parent && t.parent[x] == d && x in host.name && host.name[x] == n;
          return true;
        }
        i := i + 1;
      }
      forall x | x in t.parent && t.parent[x] == d && x in host.name ensures host.name[x] != n {
        ParentFacts(t, x);
      }
      found := false;
    }

    /** The search for the parent in rdma_create. */
    method FindParent(n: string) returns (r: Found<int>)
      requires host.Valid()
      ensures r == ParentFor(host, n)
    {
      RootFacts(host.tree);
      if n == host.name[host.tree.root] { return Entry(host.tree.root); }
      r := Find(host.tree, host.tree.kids.Keys, host.dirs, host.tree.root, ByName(host, n));
    }

    /** rdma_create. */
    method Create(m: Msg, l: int) returns (bug: bool)
      requires host.Valid() && table.slots.Length == SLOTS
      modifies this`host, table.slots
      ensures var q := ParentFor(old(host), m.parentName);
              && (bug <==> q.Nothing? || q.node !in old(host.dirs) || m.name == [] || '/' in m.name || Taken(old(host), q.node, m.name))
              && (bug ==> View() == old(View()))
              && (!bug ==> View() == DeliverCreate(old(View()), m, q.node, l))
              && (!bug && l !in old(host.tree.kids) ==> Gains(old(host), host, q.node, m.name, m.isDir, l))
    {
      hide Tree.Valid, Taken, ParentFor, Gains;
      var found := FindParent(m.parentName);
      if found.Nothing? || BadName(m.name) || found.node !in host.dirs { return true; }
      var q := found.node;
      bug := HasEntry(q, m.name);
      if bug { return; }
      DepthFacts(host.tree, q);
      if l !in host.tree.kids { AddedGains(host, q, m.name, m.isDir, l); }
      host := Added(host, q, m.name, m.isDir, l);
      var i := table.Insert(Slot(true, l, m.ino, q, m.parentIno));
    }

    /** rdma_remove. */
    method Remove(m: Msg)
      requires host.Valid()
      modifies this`host, this`loose, table.slots
      ensures View() == DeliverRemove(old(View()), m)
    {
      hide Tree.Valid, FindBy, Freed;
      var l := table.Remove((m.ino, m.parentIno));
      var mine := l.0;
      var found := FindIno(mine);
      if found.Entry? {
        InoFound(host, mine);
        ParentFacts(host.tree, mine);
        if host.tree.kids[mine] == [] && mine !in open {
          Free(mine);
        } else if host.tree.kids[mine] == [] || !m.isDir {
          loose := loose + {mine};
        }
      }
    }

    /** The last dput of an entry, and of the ancestors that only it kept. */
    method Free(x: int)
      requires host.Valid() && Possible(host, Drop(x))
      modifies this`host, this`loose
      ensures View() == Freed(old(View()), x)
    {
      hide Host.Valid, Tree.Valid, Freed;
      var cur := x;
      while true
        invariant host.Valid() && Possible(host, Drop(cur)) && Freed(View(), cur) == Freed(old(View()), x)
        invariant table.slots[..] == old(table.slots[..])
        decreases if cur in host.tree.depth then host.tree.depth[cur] else 0
      {
        FreedStep(View(), cur);
        HostTree(host);
        var q := host.tree.parent[cur];
        var i := Position(host.tree, cur);
        host, loose := Dropped(host, cur, i), loose - {cur};
        HostTree(host);
        if !(q in loose && q in host.tree.parent && host.tree.kids[q] == [] && q !in open) { return; }
        cur := q;
      }
    }

    method FindIno(i: int) returns (r: Found<int>)
      requires host.Valid()
      ensures r == FindBy(host, ByIno(i))
    {
      RootFacts(host.tree);
      r := Find(host.tree, host.tree.kids.Keys, host.dirs, host.tree.root, ByIno(i));
    }

    /** A process opens an entry: what the peer mirrors stays the same. */
    method Open(x: int, ghost h: Host, ghost rho: map<int, int>)
      requires Covers(h, View(), rho) && x in host.tree.parent
      modifies this`open
      ensures Covers(h, View(), rho) && Strays(View()) == Strays(old(View())) && open == old(open) + {x}
    {
      hide Covers, Strays;
      CoverOpens(h, View(), rho, x);
      open := open + {x};
    }

    /** The last process closes an entry.  A leftover of a removed mirror goes with it, and with the last
        such leftover the peer mirrors the owner again. */
    method Close(x: int, ghost h: Host, ghost rho: map<int, int>)
      requires Covers(h, View(), rho)
      modifies this`host, this`open, this`loose
      ensures View() == LetGo(old(View()), x) && Covers(h, View(), rho)
      ensures Strays(View()) <= Strays(old(View())) && Strays(old(View())) - Strays(View()) <= old(loose) && open == old(open) - {x}
      ensures x in old(loose) && x in old(host.tree.kids) && old(host.tree.kids[x]) == [] ==> x !in Strays(View())
      ensures open == {} && Strays(View()) <= loose ==> Mirrors(h, View(), rho)
    {
      hide Covers, Strays, Freed, Host.Valid, Mirrors;
      CoverFacts(h, View(), rho);
      CoverCloses(h, View(), rho, x);
      open := open - {x};
      HostTree(host);
      if x in loose && x in host.tree.parent && host.tree.kids[x] == [] { Free(x); }
      if open == {} && Strays(View()) <= loose { CloseRestores(h, View(), rho); }
    }

    /** One message through wjfs_server; "quit" ends its loop. */
    method Handle(buf: string, l: int) returns (quit: bool, bug: bool)
      requires host.Valid() && table.slots.Length == SLOTS && WellFormed(buf)
      modifies this`host, this`loose, table.slots
      ensures quit <==> |buf| >= 4 && buf[..4] == "quit"
      ensures quit ==> !bug && Parse(buf).None? && View() == old(View())
      ensures bug <==> Deliver(old(View()), buf, l).None?
      ensures !bug ==> Deliver(old(View()), buf, l) == Some(View())
    {
      hide Host.Valid, Split, Value, DeliverCreate, DeliverRemove, ParentFor, Taken;
      quit, bug := |buf| >= 4 && buf[..4] == "quit", false;
      if quit {
        QuitStart(buf);
        return;
      }
      if |buf| < 2 || (buf[..2] != "CR" && buf[..2] != "RM") { return; }
      var m := ReadMsg(buf);
      if m.kind.CR? { bug := Create(m, l); } else { Remove(m); }
    }

    /** Handling every message in flight, with inode numbers handed out in turn, nothing held and no
        strays: the server never stops, and in the end it mirrors the owner. */
    method Drain(wire: seq<string>, ghost owner: Host)
      requires table.slots.Length == SLOTS && Inv(System(owner, View(), wire)) && host.last + |wire| <= INT_MAX
      requires open == {} && Strays(View()) == {}
      modifies this`host, this`loose, table.slots
      ensures exists rho :: Mirrors(owner, View(), rho)
    {
      hide Inv, Mirrors, Covers, Strays, Deliver, WellFormed;
      var i := 0;
      assert wire[0..] == wire;
      while i < |wire|
        invariant i <= |wire| && Inv(System(owner, View(), wire[i..])) && host.last + |wire| - i <= INT_MAX
        invariant Strays(View()) == {}
      {
        NextMessage(System(owner, View(), wire[i..]), host.last + 1);
        var quit, bug := Handle(wire[i], host.last + 1);
        assert wire[i..][1..] == wire[i + 1..];
        i := i + 1;
      }
      assert wire[i..] == [];
      ghost var rho := Arrived(System(owner, View(), []));
      NoStrays(owner, View(), rho);
    }
  }

  /** A process opens a mirror, the owner's removal of its entry arrives, and the process closes it: in
      between the mirror is a stray, and in the end the server mirrors the owner again. */
  method HeldAcrossRemoval(s: Server, x: int, buf: string, l: int, ghost h: Host, ghost rho: map<int, int>, ghost i: int)
    requires Covers(h, s.View(), rho) && Strays(s.View()) == {} && s.open == {} && s.table.slots.Length == SLOTS
    requires Possible(h, Drop(i)) && i in rho && rho[i] == x && x in s.host.tree.parent && buf == Print(MsgOf(h, Drop(i)))
    modifies s, s.table.slots
    ensures Mirrors(Apply(h, Drop(i)), s.View(), rho - {i})
  {
    hide Covers, Mirrors, Strays, Host.Valid, Print, MsgOf, Deliver, DeliverRemove, Apply, Possible, WellFormed;
    CoverFacts(h, s.View(), rho);
    s.Open(x, h, rho);
    CoverFacts(h, s.View(), rho);
    PrintedWell(h, Drop(i));
    DeliverRemoval(h, s.View(), Drop(i), l);
    CoverRemoves(h, s.View(), rho, Drop(i));
    ghost var was := s.View();
    var quit, bug := s.Handle(buf, l);
    assert Strays(s.View()) == {x} && s.loose == was.loose + {x};
    DropHere(h, was, rho, Drop(i));
    HeldStays(was, MsgOf(h, Drop(i)));
    s.Close(x, Apply(h, Drop(i)), rho - {i});
  }

  lemma PrintedWell(h: Host, op: Op)
    requires h.Valid() && Possible(h, op)
    ensures WellFormed(Print(MsgOf(h, op)))
  {
    hide Host.Valid, Print, Parse, MsgOf, Fits;
    MessageArrives(h, op);
  }

  /** A held mirror keeps its place. */
  lemma HeldStays(p: Peer, m: Msg)
    requires p.host.Valid() && MirrorOf(p.table, m) in p.open
    ensures DeliverRemove(p, m).host == p.host && DeliverRemove(p, m).open == p.open
  {
    hide Host.Valid, MirrorOf, FindBy, Removed, Freed;
  }

  lemma NextMessage(s: System, l: int)
    requires Inv(s) && s.wire != [] && s.peer.host.last < l <= INT_MAX && s.peer.open == {} && Strays(s.peer) == {}
    ensures s.peer.host.Valid() && WellFormed(s.wire[0]) && Deliver(s.peer, s.wire[0], l).Some?
    ensures var p := Deliver(s.peer, s.wire[0], l).value;
            Inv(System(s.owner, p, s.wire[1..])) && p.host.last <= l && Strays(p) == {}
  {
    hide Covers, InFlight, Host.Valid, Deliver, Strays;
    var base, ops, rho :| Behind(s, base, ops, rho);
    CoverFacts(base, s.peer, rho);
    DeliverNext(s, base, ops, rho, l);
    NextWellFormed(base, ops, s.wire, s.owner);
    LastAfter(s.peer, s.wire[0], l);
  }

  lemma QuitStart(buf: string)
    requires |buf| >= 4 && buf[..4] == "quit"
    ensures buf[..2] != "CR" && buf[..2] != "RM"
  {
    assert buf[0] == buf[..4][0] == 'q';
  }

  lemma NextWellFormed(base: Host, ops: seq<Op>, wire: seq<string>, owner: Host)
    requires InFlight(base, ops, wire, owner) && wire != []
    ensures WellFormed(wire[0])
  {
    hide Host.Valid, Print, Parse, MsgOf, Fits, Apply, Resolves;
    MessageArrives(base, ops[0]);
  }

  lemma LastAfter(p: Peer, buf: string, l: int)
    requires p.host.Valid() && p.host.last < l && Deliver(p, buf, l).Some?
    ensures Deliver(p, buf, l).value.host.last <= l
  {
    hide Host.Valid, Parse, ParentFor, Taken, FindBy, Freed;
    if Parse(buf).Some? && Parse(buf).value.kind.RM? {
      var m := Parse(buf).value;
      var mine := MirrorOf(p.table, m);
      if mine in p.host.tree.parent && mine in p.host.tree.kids && p.host.tree.kids[mine] == [] {
        FreedLast(p.(table := Removed(p.table, (m.ino, m.parentIno))), mine);
      }
    }
  }

  lemma {:induction false} FreedLast(p: Peer, x: int)
    requires p.host.Valid() && Possible(p.host, Drop(x))
    ensures Freed(p, x).host.last == p.host.last
    decreases if x in p.host.tree.depth then p.host.tree.depth[x] else 0
  {
    hide Host.Valid, Tree.Valid, Freed;
    FreedStep(p, x);
    if Unheld(Less(p, x), p.host.tree.parent[x]) { FreedLast(Less(p, x), p.host.tree.parent[x]); }
  }
}
