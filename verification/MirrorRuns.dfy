/**
 Runs of the two-node system: the owner's operations interleaved in any way with in-order
 deliveries and with what processes on the peer open, close, make and remove.
 */
module MirrorRuns {
  import opened Trees
  import opened Searches
  import opened Isomorphism
  import opened Decimal
  import opened Wire
  import opened MappTables
  import opened Cuts
  import opened Mirroring
  import opened Covering

  datatype System = System(owner: Host, peer: Peer, wire: seq<string>)

  /** A freshly mounted name space with root inode `r`. */
  function Mounted(r: int): Host {
    Host(Tree(r, map[r := []], map[], map[r := 0], 0), map[r := "/"], {r}, r)
  }

  ghost predicate Init(s: System) {
    && s.wire == [] && s.peer.open == {} && s.peer.loose == {} && |s.peer.table| == SLOTS && (forall i :: 0 <= i < SLOTS ==> !s.peer.table[i].used)
    && exists r, q :: 0 < r <= INT_MAX && 0 < q <= INT_MAX && s.owner == Mounted(r) && s.peer.host == Mounted(q)
  }

  /** Any two freshly mounted machines with an empty table and queue. */
  lemma AnyInit(r: int, q: int, table: seq<Slot>)
    requires 0 < r <= INT_MAX && 0 < q <= INT_MAX && |table| == SLOTS && forall i :: 0 <= i < SLOTS ==> !table[i].used
    ensures Init(System(Mounted(r), Peer(Mounted(q), table, {}, {}), []))
  {
    var s := System(Mounted(r), Peer(Mounted(q), table, {}, {}), []);
    assert s.owner == Mounted(r) && s.peer.host == Mounted(q);
  }

  /** The owner performs a legal operation and its message joins the queue. */
  ghost predicate OwnerStep(s: System, s': System, op: Op) {
    && s.owner.Valid() && Legal(s.owner, op)
    && s' == System(Apply(s.owner, op), s.peer, s.wire + [Print(MsgOf(s.owner, op))])
  }

  /** The server takes an entry that mirrors something for the parent of a new entry. */
  ghost predicate Straight(p: Peer, buf: string)
    requires p.host.Valid()
  {
    Parse(buf).Some? && Parse(buf).value.kind.CR? ==> Unmistaken(p, Parse(buf).value.parentName)
  }

  /** The peer's server takes the oldest message; `l` is the next inode number it hands out. */
  ghost predicate DeliverStep(s: System, s': System, l: int) {
    && s.peer.host.Valid() && s.wire != [] && s.peer.host.last < l <= INT_MAX && Straight(s.peer, s.wire[0])
    && Deliver(s.peer, s.wire[0], l) == Some(s'.peer)
    && s' == System(s.owner, s'.peer, s.wire[1..])
  }

  /** A process on the peer opens an entry, or the last one closes it. */
  ghost predicate HoldStep(s: System, s': System, x: int) {
    && s.peer.host.Valid() && x in s.peer.host.tree.parent
    && (s' == s.(peer := s.peer.(open := s.peer.open + {x})) || s' == s.(peer := LetGo(s.peer, x)))
  }

  /** The peer makes an entry of its own, or removes one that nobody holds. */
  ghost predicate OwnStep(s: System, s': System, op: Op) {
    && s.peer.host.Valid() && Possible(s.peer.host, op)
    && match op
       case Make(_, _, _, _) => s' == s.(peer := s.peer.(host := Apply(s.peer.host, op)))
       case Drop(x) => x in Strays(s.peer) && x !in s.peer.loose && x !in s.peer.open && s' == s.(peer := Freed(s.peer, x))
  }

  ghost predicate Step(s: System, s': System) {
    || (exists op :: OwnerStep(s, s', op)) || (exists l :: DeliverStep(s, s', l))
    || (exists x :: HoldStep(s, s', x)) || (exists op :: OwnStep(s, s', op))
  }

  /** Each of these is a step from any state: every legal operation of the owner, every delivery that
      does not stop the kernel or take a stray for the parent, every open and close on the peer, and
      every entry the peer makes for itself or removes while nobody holds it. */
  lemma AllSteps(s: System, op: Op, l: int, x: int)
    requires s.owner.Valid() && s.peer.host.Valid()
    ensures Legal(s.owner, op) ==> Step(s, System(Apply(s.owner, op), s.peer, s.wire + [Print(MsgOf(s.owner, op))]))
    ensures s.wire != [] && s.peer.host.last < l <= INT_MAX && Straight(s.peer, s.wire[0]) && Deliver(s.peer, s.wire[0], l).Some? ==>
              Step(s, System(s.owner, Deliver(s.peer, s.wire[0], l).value, s.wire[1..]))
    ensures x in s.peer.host.tree.parent ==> Step(s, s.(peer := s.peer.(open := s.peer.open + {x}))) && Step(s, s.(peer := LetGo(s.peer, x)))
    ensures op.Make? && Possible(s.peer.host, op) ==> Step(s, s.(peer := s.peer.(host := Apply(s.peer.host, op))))
    ensures x in Strays(s.peer) && x !in s.peer.loose && x !in s.peer.open && Possible(s.peer.host, Drop(x)) ==>
              Step(s, s.(peer := Freed(s.peer, x)))
  {
    hide Resolves, Taken, Apply, Print, MsgOf, Straight, Deliver, LetGo, Freed, Strays, Host.Valid;
    if Legal(s.owner, op) {
      assert OwnerStep(s, System(Apply(s.owner, op), s.peer, s.wire + [Print(MsgOf(s.owner, op))]), op);
    }
    if s.wire != [] && s.peer.host.last < l <= INT_MAX && Straight(s.peer, s.wire[0]) && Deliver(s.peer, s.wire[0], l).Some? {
      assert DeliverStep(s, System(s.owner, Deliver(s.peer, s.wire[0], l).value, s.wire[1..]), l);
    }
    if x in s.peer.host.tree.parent {
      assert HoldStep(s, s.(peer := s.peer.(open := s.peer.open + {x})), x) && HoldStep(s, s.(peer := LetGo(s.peer, x)), x);
    }
    if op.Make? && Possible(s.peer.host, op) { assert OwnStep(s, s.(peer := s.peer.(host := Apply(s.peer.host, op))), op); }
    if x in Strays(s.peer) && x !in s.peer.loose && x !in s.peer.open && Possible(s.peer.host, Drop(x)) {
      assert OwnStep(s, s.(peer := Freed(s.peer, x)), Drop(x));
    }
  }

  ghost predicate Run(run: seq<System>) {
    run != [] && Init(run[0]) && forall i :: 0 <= i < |run| - 1 ==> Step(run[i], run[i + 1])
  }

  /** The messages `wire` are those of the legal operations `ops`, which take the owner from
      `base` to `owner`. */
  ghost predicate InFlight(base: Host, ops: seq<Op>, wire: seq<string>, owner: Host)
    decreases |ops|
  {
    if ops == [] then wire == [] && base == owner
    else
      && base.Valid() && Legal(base, ops[0]) && wire != [] && wire[0] == Print(MsgOf(base, ops[0]))
      && InFlight(Apply(base, ops[0]), ops[1..], wire[1..], owner)
  }

  /** Beside its strays the peer mirrors the owner as it was before the operations still in flight. */
  ghost predicate Behind(s: System, base: Host, ops: seq<Op>, rho: map<int, int>) {
    Covers(base, s.peer, rho) && InFlight(base, ops, s.wire, s.owner)
  }

  ghost predicate Inv(s: System) {
    exists base, ops, rho :: Behind(s, base, ops, rho)
  }

  lemma {:induction false} InFlightAppend(base: Host, ops: seq<Op>, wire: seq<string>, owner: Host, op: Op)
    requires InFlight(base, ops, wire, owner) && owner.Valid() && Legal(owner, op)
    ensures InFlight(base, ops + [op], wire + [Print(MsgOf(owner, op))], Apply(owner, op))
    decreases |ops|
  {
    hide Possible, Resolves, Apply, Print, MsgOf, Host.Valid;
    var msg := Print(MsgOf(owner, op));
    if ops == [] {
      assert ops + [op] == [op] && wire + [msg] == [msg];
      assert [op][1..] == [] && [msg][1..] == [];
    } else {
      InFlightAppend(Apply(base, ops[0]), ops[1..], wire[1..], owner, op);
      assert (ops + [op])[1..] == ops[1..] + [op] && (wire + [msg])[1..] == wire[1..] + [msg];
    }
  }

  lemma FlightHead(base: Host, ops: seq<Op>, wire: seq<string>, owner: Host)
    requires InFlight(base, ops, wire, owner) && wire != []
    ensures ops != [] && base.Valid() && Legal(base, ops[0]) && wire[0] == Print(MsgOf(base, ops[0]))
    ensures InFlight(Apply(base, ops[0]), ops[1..], wire[1..], owner)
  {
    hide Host.Valid, Legal, Print, MsgOf, Apply;
  }

  /** A stray is in the way of the new entry. */
  ghost predicate InTheWay(p: Peer, buf: string)
    requires p.host.Valid()
  {
    && Parse(buf).Some? && Parse(buf).value.kind.CR?
    && var r := ParentFor(p.host, Parse(buf).value.parentName);
       r.Entry? && StrayTaken(p, r.node, Parse(buf).value.name)
  }

  /** The message of a legal operation stops the kernel if and only if a stray is in the way, and
      otherwise takes the peer to where the owner was after the operation. */
  lemma DeliverOne(base: Host, p: Peer, rho: map<int, int>, op: Op, l: int) returns (rho': map<int, int>)
    requires Covers(base, p, rho) && Legal(base, op) && p.host.last < l <= INT_MAX && Straight(p, Print(MsgOf(base, op)))
    ensures Deliver(p, Print(MsgOf(base, op)), l).None? <==> InTheWay(p, Print(MsgOf(base, op)))
    ensures var r := Deliver(p, Print(MsgOf(base, op)), l);
            r.Some? ==> Covers(Apply(base, op), r.value, rho') && (Strays(p) == {} && p.open == {} ==> Strays(r.value) == {})
  {
    hide Covers, Apply, Print, Parse, MsgOf, Deliver, DeliverRemove, DeliverCreate, Host.Valid, Taken, Resolves, StrayTaken, ParentFor,
      TakenFor, Strays;
    CoverFacts(base, p, rho);
    MessageArrives(base, op);
    rho' := rho;
    if op.Make? {
      MakeMsg(base, op);
      CoverMake(base, p, rho, op, l);
      if !InTheWay(p, Print(MsgOf(base, op))) {
        CoverCreates(base, p, rho, op, l);
        rho' := rho[op.ino := l];
      }
    } else {
      DropMsg(base, op);
      DeliverRemoval(base, p, op, l);
      CoverRemoves(base, p, rho, op);
      rho' := rho - {op.ino};
    }
  }

  lemma DeliverRemoval(h: Host, p: Peer, op: Op, l: int)
    requires h.Valid() && p.host.Valid() && Possible(h, op) && op.Drop?
    ensures Deliver(p, Print(MsgOf(h, op)), l) == Some(DeliverRemove(p, MsgOf(h, op)))
  {
    hide Host.Valid, Print, Parse, DeliverRemove;
    MessageArrives(h, op);
    DropMsg(h, op);
  }

  /** In a state that is merely behind, the next delivery stops the kernel if and only if a stray is
      in the way, and otherwise leaves the peer behind by one operation less. */
  lemma DeliverNext(s: System, base: Host, ops: seq<Op>, rho: map<int, int>, l: int)
    requires Behind(s, base, ops, rho) && s.wire != [] && s.peer.host.last < l <= INT_MAX && Straight(s.peer, s.wire[0])
    ensures Deliver(s.peer, s.wire[0], l).None? <==> InTheWay(s.peer, s.wire[0])
    ensures var r := Deliver(s.peer, s.wire[0], l);
            r.Some? ==> Inv(System(s.owner, r.value, s.wire[1..])) && (Strays(s.peer) == {} && s.peer.open == {} ==> Strays(r.value) == {})
  {
    hide Covers, InFlight, Possible, Resolves, Apply, Print, MsgOf, Deliver, Host.Valid, Straight, InTheWay, Strays;
    CoverFacts(base, s.peer, rho);
    FlightHead(base, ops, s.wire, s.owner);
    var rho' := DeliverOne(base, s.peer, rho, ops[0], l);
    var r := Deliver(s.peer, s.wire[0], l);
    if r.Some? {
      assert Behind(System(s.owner, r.value, s.wire[1..]), Apply(base, ops[0]), ops[1..], rho');
    }
  }

  lemma {:induction false} FreshTable(s: seq<Slot>)
    requires forall i :: 0 <= i < |s| ==> !s[i].used
    ensures Used(s) == 0 && Unique(s) && Entries(s) == map[]
  {
    if s != [] { FreshTable(s[1..]); }
  }

  lemma InitInv(s: System)
    requires Init(s)
    ensures Inv(s) && Strays(s.peer) == {}
  {
    hide Mounted, Host.Valid, Mirrors, Covers, Entries, Unique, Used, Strays;
    var r, q :| 0 < r <= INT_MAX && 0 < q <= INT_MAX && s.owner == Mounted(r) && s.peer.host == Mounted(q);
    MountedMirrors(r, q, s.peer.table);
    assert s.peer == Peer(Mounted(q), s.peer.table, {}, {});
    MountedValid(q);
    MountedCovers(Mounted(r), s.peer, q, map[r := q]);
    assert Behind(s, s.owner, [], map[r := q]);
  }

  lemma MountedCovers(h: Host, p: Peer, q: int, rho: map<int, int>)
    requires Mirrors(h, p, rho) && p.host == Mounted(q) && p.host.Valid() && p.open == {}
    ensures Covers(h, p, rho) && Strays(p) == {}
  {
    hide Host.Valid, Mirrors, Tree.Valid, Cut;
    HostTree(p.host);
    MirrorFacts(h, p, rho);
    CutNothing(p.host.tree);
    assert Strays(p) == {} && p.host.name - {} == p.host.name && p.host.dirs - {} == p.host.dirs;
  }

  lemma MountedMirrors(r: int, q: int, table: seq<Slot>)
    requires 0 < r <= INT_MAX && 0 < q <= INT_MAX && |table| == SLOTS
    requires forall i :: 0 <= i < SLOTS ==> !table[i].used
    ensures Mirrors(Mounted(r), Peer(Mounted(q), table, {}, {}), map[r := q])
  {
    hide Host.Valid, Shape, SameLabels, Links, Mirrors, Entries, Unique, Used;
    FreshTable(table);
    MountedShape(r, q);
    MirrorsIntro(Mounted(r), Peer(Mounted(q), table, {}, {}), map[r := q]);
  }

  lemma MountedValid(r: int)
    requires 0 < r <= INT_MAX
    ensures Mounted(r).Valid()
  {
    var t := Mounted(r).tree;
    assert t.kids[r] == [] && t.kids.Keys == {r} && t.parent.Keys == {};
  }

  lemma MountedShape(r: int, q: int)
    requires 0 < r <= INT_MAX && 0 < q <= INT_MAX
    ensures Mounted(r).Valid() && Mounted(q).Valid()
    ensures var h, u, rho := Mounted(r), Mounted(q), map[r := q];
            Shape(h.tree, u.tree, rho) && SameLabels(h, u, rho) && Links(h.tree, rho) == map[]
  {
    hide Tree.Valid;
    MountedValid(r);
    MountedValid(q);
    assert SameKids(Mounted(r).tree, Mounted(q).tree, map[r := q], r);
  }

  lemma {:induction false} OwnerValid(base: Host, ops: seq<Op>, wire: seq<string>, owner: Host)
    requires InFlight(base, ops, wire, owner) && base.Valid()
    ensures owner.Valid()
    decreases |ops|
  {
    hide Apply, Print, MsgOf, Host.Valid;
    if ops != [] {
      PossibleKeeps(base, ops[0]);
      OwnerValid(Apply(base, ops[0]), ops[1..], wire[1..], owner);
    }
  }

  lemma StepInv(s: System, s': System)
    requires Inv(s) && Step(s, s')
    ensures Inv(s')
  {
    hide Covers, InFlight, Deliver, DeliverStep, HoldStep, OwnStep, Legal, Apply, Print, MsgOf, Host.Valid;
    var base, ops, rho :| Behind(s, base, ops, rho);
    if op :| OwnerStep(s, s', op) {
      InFlightAppend(base, ops, s.wire, s.owner, op);
      assert Behind(s', base, ops + [op], rho);
    } else if l :| DeliverStep(s, s', l) {
      DeliverInv(s, s', base, ops, rho, l);
    } else if x :| HoldStep(s, s', x) {
      HoldCovers(s, s', base, rho, x);
      assert Behind(s', base, ops, rho);
    } else {
      var op :| OwnStep(s, s', op);
      OwnCovers(s, s', base, rho, op);
      assert Behind(s', base, ops, rho);
    }
  }

  lemma DeliverInv(s: System, s': System, base: Host, ops: seq<Op>, rho: map<int, int>, l: int)
    requires Behind(s, base, ops, rho) && DeliverStep(s, s', l)
    ensures Inv(s')
  {
    hide Behind, Inv, Deliver, Host.Valid, Straight, InTheWay;
    DeliverNext(s, base, ops, rho, l);
  }

  lemma HoldCovers(s: System, s': System, base: Host, rho: map<int, int>, x: int)
    requires Covers(base, s.peer, rho) && HoldStep(s, s', x)
    ensures Covers(base, s'.peer, rho) && s'.owner == s.owner && s'.wire == s.wire
  {
    hide Covers, Host.Valid, LetGo, Strays;
    CoverOpens(base, s.peer, rho, x);
    CoverCloses(base, s.peer, rho, x);
  }

  lemma OwnCovers(s: System, s': System, base: Host, rho: map<int, int>, op: Op)
    requires Covers(base, s.peer, rho) && OwnStep(s, s', op)
    ensures Covers(base, s'.peer, rho) && s'.owner == s.owner && s'.wire == s.wire
  {
    hide Covers, Host.Valid, Apply, Freed, Strays;
    if op.Make? { CoverOwns(base, s.peer, rho, op); } else { CoverDisowns(base, s.peer, rho, op.ino); }
  }

  /** In every state of every run the peer, beside its strays, mirrors the owner's name space as it
      was before the messages in flight, and the table is exactly the renaming. */
  lemma {:induction false} RunInv(run: seq<System>, n: nat)
    requires Run(run) && n < |run|
    ensures Inv(run[n])
  {
    if n == 0 {
      InitInv(run[0]);
    } else {
      RunInv(run, n - 1);
      StepInv(run[n - 1], run[n]);
    }
  }

  /** When the queue is empty the peer mirrors the owner beside its strays; if besides everything is
      closed and no stray has a pin, there are none left. */
  lemma DrainedMirrors(run: seq<System>, n: nat)
    requires Run(run) && n < |run| && run[n].wire == []
    ensures exists rho ::
              && Covers(run[n].owner, run[n].peer, rho)
              && (run[n].peer.open == {} && Strays(run[n].peer) <= run[n].peer.loose ==> Mirrors(run[n].owner, run[n].peer, rho))
  {
    hide Covers, Mirrors, Strays;
    RunInv(run, n);
    var rho := Arrived(run[n]);
    if run[n].peer.open == {} && Strays(run[n].peer) <= run[n].peer.loose { CloseRestores(run[n].owner, run[n].peer, rho); }
  }

  lemma Arrived(s: System) returns (rho: map<int, int>)
    requires Inv(s) && s.wire == []
    ensures Covers(s.owner, s.peer, rho)
  {
    hide Covers;
    var base, ops, r :| Behind(s, base, ops, r);
    assert ops == [];
    rho := r;
  }

  /** The server stops the kernel on the next message if and only if a stray is in the way. */
  lemma StopsIffInTheWay(run: seq<System>, n: nat, l: int)
    requires Run(run) && n < |run| && run[n].wire != [] && run[n].peer.host.last < l <= INT_MAX
    requires run[n].peer.host.Valid() ==> Straight(run[n].peer, run[n].wire[0])
    ensures run[n].peer.host.Valid()
    ensures Deliver(run[n].peer, run[n].wire[0], l).None? <==> InTheWay(run[n].peer, run[n].wire[0])
  {
    hide Covers, InFlight, Host.Valid, Deliver, InTheWay, Straight;
    RunInv(run, n);
    var base, ops, rho :| Behind(run[n], base, ops, rho);
    CoverFacts(base, run[n].peer, rho);
    DeliverNext(run[n], base, ops, rho, l);
  }

  /** The message of `op` leaves the peer covering the owner after `op`. */
  ghost predicate Kept(base: Host, op: Op, p: Peer, buf: string, l: int)
    requires base.Valid() && Possible(base, op) && p.host.Valid()
  {
    Deliver(p, buf, l).Some? && exists rho :: Covers(Apply(base, op), Deliver(p, buf, l).value, rho)
  }

  /** The next message in a reachable state: a creation is carried over if and only if the search
      ends in the mirror of the parent and no stray there has the name; a removal always is, and
      leaves one more stray if and only if the mirror is held or a stray hangs below it. */
  lemma NextKept(run: seq<System>, n: nat, l: int)
    requires Run(run) && n < |run| && run[n].wire != [] && run[n].peer.host.last < l <= INT_MAX
    ensures exists base, op, rho ::
              && Covers(base, run[n].peer, rho) && base.Valid() && Legal(base, op) && Print(MsgOf(base, op)) == run[n].wire[0]
              && NextOutcome(base, op, run[n].peer, rho, l)
  {
    hide Covers, InFlight, Host.Valid, Print, MsgOf, Resolves, Apply, NextOutcome;
    RunInv(run, n);
    var base, ops, rho :| Behind(run[n], base, ops, rho);
    CoverFacts(base, run[n].peer, rho);
    FlightHead(base, ops, run[n].wire, run[n].owner);
    Outcome(base, ops[0], run[n].peer, rho, l);
    var op: Op := ops[0];
    assert Legal(base, op) && NextOutcome(base, op, run[n].peer, rho, l);
  }

  ghost predicate NextOutcome(base: Host, op: Op, p: Peer, rho: map<int, int>, l: int)
    requires base.Valid() && Legal(base, op) && p.host.Valid()
  {
    match op
    case Make(q, n, _, _) =>
      && q in rho && q in base.name
      && (Kept(base, op, p, Print(MsgOf(base, op)), l) <==>
          ParentFor(p.host, base.name[q]) == Entry(rho[q]) && !StrayTaken(p, rho[q], n))
    case Drop(x) =>
      && x in rho && rho[x] in p.host.tree.kids && Kept(base, op, p, Print(MsgOf(base, op)), l)
      && Strays(Deliver(p, Print(MsgOf(base, op)), l).value)
         == if p.host.tree.kids[rho[x]] == [] && rho[x] !in p.open then Strays(p) else Strays(p) + {rho[x]}
  }

  lemma Outcome(base: Host, op: Op, p: Peer, rho: map<int, int>, l: int)
    requires Covers(base, p, rho) && Legal(base, op) && p.host.last < l <= INT_MAX
    ensures base.Valid() && p.host.Valid() && NextOutcome(base, op, p, rho, l)
  {
    hide Covers, Host.Valid, Print, MsgOf, Resolves, Apply, Deliver, DeliverRemove, StrayTaken, ParentFor, Strays;
    CoverFacts(base, p, rho);
    if op.Make? {
      MakeMsg(base, op);
      CoverMadeIff(base, p, rho, op, l);
    } else {
      DeliverRemoval(base, p, op, l);
      CoverRemoves(base, p, rho, op);
      assert Covers(Apply(base, op), Deliver(p, Print(MsgOf(base, op)), l).value, rho - {op.ino});
    }
  }

  // ---------------------------------------------------------------- an ambiguous name

  /** Directories /a, /b and /b/a, made in this order. */
  function JustA(): Host { Added(Mounted(1), 1, "a", true, 2) }

  function AAndB(): Host { Added(JustA(), 1, "b", true, 3) }

  function TwoAs(): Host { Added(AAndB(), 3, "a", true, 4) }

  lemma TwoAsValid()
    ensures TwoAs().Valid()
  {
    hide Host.Valid;
    MountedValid(1);
    assert JustA() == Apply(Mounted(1), Make(1, "a", true, 2)) by { PossibleHere(Mounted(1), 1, "a", 2); }
    PossibleKeeps(Mounted(1), Make(1, "a", true, 2));
    assert AAndB() == Apply(JustA(), Make(1, "b", true, 3)) by { PossibleHere(JustA(), 1, "b", 3); }
    PossibleKeeps(JustA(), Make(1, "b", true, 3));
    assert TwoAs() == Apply(AAndB(), Make(3, "a", true, 4)) by { PossibleHere(AAndB(), 3, "a", 4); }
    PossibleKeeps(AAndB(), Make(3, "a", true, 4));
  }

  lemma PossibleHere(h: Host, p: int, n: string, i: int)
    requires h.Valid() && p in h.dirs && GoodName(n) && !Taken(h, p, n) && h.last < i <= INT_MAX
    ensures Possible(h, Make(p, n, true, i)) && p in h.tree.kids && p in h.tree.depth
    ensures Apply(h, Make(p, n, true, i)) == Added(h, p, n, true, i)
  {
  }

  lemma TwoAsShape()
    ensures var h := TwoAs();
            && h.tree.root == 1 && h.tree.kids == map[1 := [3, 2], 2 := [], 3 := [4], 4 := []]
            && h.name == map[1 := "/", 2 := "a", 3 := "b", 4 := "a"] && h.dirs == {1, 2, 3, 4}
  {
    assert [2] + [] == [2] && [3] + [2] == [3, 2] && [4] + [] == [4];
  }

  /** The search meets 4, then its parent 3, then 2. */
  lemma TwoAsOrder(t: Tree<int>, dirs: set<int>)
    requires t.Valid() && t.root == 1 && t.kids == map[1 := [3, 2], 2 := [], 3 := [4], 4 := []] && dirs == {1, 2, 3, 4}
    ensures Visit(t, t.kids.Keys, dirs, 1, 0) == [4, 3, 2]
  {
    hide Tree.Valid, Visit;
    var keys := t.kids.Keys;
    VisitEnd(t, keys, dirs, 4);
    VisitEnd(t, keys, dirs, 3);
    VisitEnd(t, keys, dirs, 2);
    VisitEnd(t, keys, dirs, 1);
    VisitAndHits(t, keys, dirs, 3, 0, 0);
    VisitAndHits(t, keys, dirs, 1, 1, 0);
    VisitAndHits(t, keys, dirs, 1, 0, 0);
    assert Visit(t, keys, dirs, 3, 0) == [4];
    assert [4] + [3] + [2] == [4, 3, 2];
  }

  /** A new entry of /a would be mirrored below /b/a, which the search meets first. */
  lemma SameNameMisleads()
    ensures TwoAs().Valid() && TakenFor(TwoAs(), 2) == 4 && !Resolves(TwoAs(), 2) && Resolves(TwoAs(), 4)
  {
    hide Tree.Valid, Visit, TwoAs;
    TwoAsValid();
    TwoAsShape();
    var h := TwoAs();
    TwoAsOrder(h.tree, h.dirs);
    assert ByName(h, "a")(4);
  }
}
