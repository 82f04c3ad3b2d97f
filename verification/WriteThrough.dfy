/**
 Writing to a mirror: the peer translates the mirror to the owner's inode through the table
 and sends the text; the owner finds the file by inode number and overwrites its first bytes.
 */
module WriteThrough {
  import opened Pages
  import opened Trees
  import opened Searches
  import opened Isomorphism
  import opened Decimal
  import opened Wire
  import opened MappTables
  import opened Cuts
  import opened Mirroring
  import opened Covering
  import opened MirrorRuns

  /** The message wjfs_client_write sends for the mirror `l` below `lp`. */
  ghost function WriteMsg(p: Peer, l: int, lp: int, message: string): string
    requires l in p.host.name && lp in p.host.name
  {
    var i := FirstLocal(p.table, (l, lp));
    var k := if i < |p.table| then KeyOf(p.table[i]) else (0, 0);
    PrintWrite(k.0, p.host.name[l], k.1, p.host.name[lp], message)
  }

  function TextBytes(s: string): (b: seq<Byte>)
    ensures |b| == |s| && forall i :: 0 <= i < |s| ==> b[i] == (s[i] as int) % 256
  {
    seq(|s|, i requires 0 <= i < |s| => (s[i] as int) % 256)
  }

  /** put_file_message: one page write of the text at the start of the file. */
  function Put(f: File, text: string): (g: File)
    requires |text| < ROW_SIZE
  {
    WriteChunk(f, 0, |text|, TextBytes(text))
  }

  /** Character `i` of the text is byte `i` of the new file, the other bytes stay, and the file is as
      long as before or as the text. */
  ghost predicate Overwrites(f: File, g: File, text: string) {
    && f.Valid() && g.Valid() && |g.Bytes()| == Max(|f.Bytes()|, |text|)
    && (forall i :: 0 <= i < |text| ==> g.Bytes()[i] == (text[i] as int) % 256)
    && (forall i :: |text| <= i < |f.Bytes()| ==> g.Bytes()[i] == f.Bytes()[i])
  }

  /** The text replaces the first bytes, the others stay, and the file never shrinks. */
  lemma PutIsSplice(f: File, text: string)
    requires f.Valid() && |text| < ROW_SIZE
    ensures Put(f, text).Valid() && Put(f, text).Bytes() == Splice(f.Bytes(), 0, TextBytes(text))
    ensures Overwrites(f, Put(f, text), text)
  {
    hide File.Valid, File.Bytes, WriteChunk, Patch, Splice;
    ChunkBytes(f, 0, |text|, TextBytes(text));
    PatchIsSplice(f.Bytes(), 0, TextBytes(text), |text|);
  }

  type Files = map<int, File>

  /** rdma_write on the owner: an unknown inode changes nothing.  A payload that is missing or too
      long for its row makes the original read or write memory it did not set up; it is left
      without effect here. */
  ghost function RemoteWrite(h: Host, files: Files, buf: string): Files
    requires h.Valid()
  {
    var rows := Head(buf, 5);
    if |rows| < 5 || Rest(buf, 5) == [] || |Strip(Rest(buf, 5))| >= ROW_SIZE then files
    else
      var ino := Wrap(Value(rows[1]));
      if FindBy(h, ByIno(ino)).Entry? && ino in files then files[ino := Put(files[ino], Strip(Rest(buf, 5)))]
      else files
  }

  /** The table translates the mirror of `x` back to `x`. */
  lemma TranslatesBack(h: Host, p: Peer, rho: map<int, int>, x: int)
    requires Mirrors(h, p, rho) && x in h.tree.parent
    ensures x in rho && h.tree.parent[x] in rho
    ensures var i := FirstLocal(p.table, (rho[x], rho[h.tree.parent[x]]));
            i < |p.table| && KeyOf(p.table[i]) == (x, h.tree.parent[x])
  {
    hide Tree.Valid, Shape, Mirrors, SameLabels, Links, Unique, Used, Entries, FirstLocal;
    MirrorFacts(h, p, rho);
    LinkIn(h.tree, rho, x);
    var l := (rho[x], rho[h.tree.parent[x]]);
    TranslateRefines(p.table, l);
    var i := FirstLocal(p.table, l);
    LinkOut(h.tree, rho, KeyOf(p.table[i]));
    SameImage(h.tree, p.host.tree, rho, KeyOf(p.table[i]).0, x);
  }

  /** A write to the mirror of `x`, handled on any state `h` of the owner, changes the file of
      `x` and no other if the owner still has `x`, and nothing otherwise. */
  lemma WriteIsRouted(base: Host, p: Peer, rho: map<int, int>, x: int, h: Host, files: Files, message: string)
    requires Mirrors(base, p, rho) && x in base.tree.parent && h.Valid() && message != [] && |Strip(message)| < ROW_SIZE
    requires x in h.tree.parent ==> x in files
    ensures x in rho && base.tree.parent[x] in rho
    ensures rho[x] in p.host.name && rho[base.tree.parent[x]] in p.host.name
    ensures RemoteWrite(h, files, WriteMsg(p, rho[x], rho[base.tree.parent[x]], message))
            == if x in h.tree.parent then files[x := Put(files[x], Strip(message))] else files
  {
    hide Tree.Valid, Shape, Mirrors, RemoteWrite, PrintWrite, Links, Unique, Entries, Used, FirstLocal, Strip, Put;
    MirrorFacts(base, p, rho);
    ParentFacts(base.tree, x);
    TranslatesBack(base, p, rho, x);
    var y := base.tree.parent[x];
    NamesCarry(base, x);
    NamesCarry(base, y);
    WriteLands(h, files, x, base.name[x], y, base.name[y], message);
  }

  /** A write message lands in the file of the inode it names. */
  lemma WriteLands(h: Host, files: Files, x: int, n: string, y: int, m: string, message: string)
    requires h.Valid() && DelimFree(n) && DelimFree(m) && IsInt(x) && Survives(x)
    requires message != [] && |Strip(message)| < ROW_SIZE && (x in h.tree.parent ==> x in files)
    ensures RemoteWrite(h, files, PrintWrite(x, n, y, m, message))
            == if x in h.tree.parent then files[x := Put(files[x], Strip(message))] else files
  {
    hide Tree.Valid, FindBy, Head, Rest, PrintWrite, Value, Strip, Put;
    WriteRoundTrip(x, n, y, m, message);
    IntRoundTrip(x);
    InoFound(h, x);
  }

  lemma NamesCarry(h: Host, x: int)
    requires h.Valid() && x in h.tree.kids
    ensures x in h.name && DelimFree(h.name[x]) && IsInt(x) && Survives(x)
  {
    hide Tree.Valid;
    RootFacts(h.tree);
  }

  /** Inode numbers are not reused: an inode known to `base` that the owner still has is the same
      entry, below the same parent. */
  lemma {:induction false} SameFile(base: Host, ops: seq<Op>, wire: seq<string>, owner: Host, x: int)
    requires InFlight(base, ops, wire, owner) && base.Valid() && x <= base.last && x in owner.tree.parent
    ensures x in base.tree.parent && owner.tree.parent[x] == base.tree.parent[x]
    ensures x in base.name && x in owner.name && owner.name[x] == base.name[x] && (x in owner.dirs <==> x in base.dirs)
    decreases |ops|
  {
    hide Tree.Valid, Print, MsgOf, Resolves;
    if ops == [] {
      RootFacts(base.tree);
    } else {
      var op := ops[0];
      PossibleKeeps(base, op);
      SameFile(Apply(base, op), ops[1..], wire[1..], owner, x);
    }
  }

  /** `x` is the entry that the mirror `l` mirrors, and what a write to `l` does to the owner's
      files: the file of `x`, still under the same name, or nothing once the owner removed it. */
  ghost predicate WritesTo(s: System, files: Files, l: int, message: string, x: int)
    requires s.owner.Valid() && l in s.peer.host.tree.parent && |Strip(message)| < ROW_SIZE
    requires l in s.peer.host.name && s.peer.host.tree.parent[l] in s.peer.host.name
  {
    && (exists base, ops, rho :: Behind(s, base, ops, rho) && x in rho && rho[x] == l)
    && (x in s.owner.tree.parent ==> x in s.owner.name && s.owner.name[x] == s.peer.host.name[l] && x in files)
    && var after := RemoteWrite(s.owner, files, WriteMsg(s.peer, l, s.peer.host.tree.parent[l], message));
       && (x !in s.owner.tree.parent ==> after == files)
       && (x in s.owner.tree.parent ==>
           && after.Keys == files.Keys && (forall y :: y in files && y != x ==> after[y] == files[y])
           && (files[x].Valid() ==> Overwrites(files[x], after[x], Strip(message))))
  }

  /** What a mirror mirrors, under the same name and with the mirror of its parent above it. */
  lemma Mirrored(base: Host, p: Peer, rho: map<int, int>, l: int) returns (x: int)
    requires Mirrors(base, p, rho) && l in p.host.tree.parent
    ensures x in rho && rho[x] == l && x in base.tree.parent && base.tree.parent[x] in rho
    ensures p.host.tree.parent[l] == rho[base.tree.parent[x]] && p.host.tree.parent[l] in p.host.name
    ensures l in p.host.name && x in base.name && p.host.name[l] == base.name[x] && x <= base.last
  {
    hide Tree.Valid, Shape, Mirrors, SameLabels, Links, Unique, Used, Entries;
    MirrorFacts(base, p, rho);
    RootFacts(base.tree);
    RootFacts(p.host.tree);
    ParentFacts(p.host.tree, l);
    x := Onto(base.tree, p.host.tree, rho, l);
    ImageOfParent(base.tree, p.host.tree, rho, x);
    SameLabel(base, p.host, rho, x);
    SameLabel(base, p.host, rho, base.tree.parent[x]);
  }

  lemma StateWriteIsRouted(s: System, files: Files, l: int, message: string)
    requires Inv(s) && message != [] && |Strip(message)| < ROW_SIZE
    requires l in s.peer.host.tree.parent && IsMirror(s.peer.table, l) && s.owner.tree.kids.Keys <= files.Keys
    ensures s.owner.Valid() && l in s.peer.host.name && s.peer.host.tree.parent[l] in s.peer.host.name
    ensures exists x :: WritesTo(s, files, l, message, x)
  {
    hide Covers, Mirrors, InFlight, RemoteWrite, WriteMsg, Put, Strip, Host.Valid, Overwrites, File.Valid;
    var base, ops, rho :| Behind(s, base, ops, rho);
    CoverFacts(base, s.peer, rho);
    InCore(base, s.peer, rho, l, message);
    var c := Core(s.peer, Strays(s.peer));
    var x := Mirrored(base, c, rho, l);
    OwnerValid(base, ops, s.wire, s.owner);
    OwnedFile(s.owner, files, x);
    WriteIsRouted(base, c, rho, x, s.owner, files, message);
    if x in s.owner.tree.parent && files[x].Valid() { PutIsSplice(files[x], Strip(message)); }
    if x in s.owner.tree.parent { SameFile(base, ops, s.wire, s.owner, x); }
    assert WritesTo(s, files, l, message, x);
  }

  /** A mirror is no stray, and its write message does not depend on the strays. */
  lemma InCore(base: Host, p: Peer, rho: map<int, int>, l: int, message: string)
    requires Covers(base, p, rho) && l in p.host.tree.parent && IsMirror(p.table, l)
    ensures var c := Core(p, Strays(p));
            && Mirrors(base, c, rho) && l in c.host.tree.parent && c.host.tree.parent[l] == p.host.tree.parent[l]
            && l in c.host.name && c.host.name[l] == p.host.name[l] && p.host.tree.parent[l] in c.host.name
            && WriteMsg(c, l, p.host.tree.parent[l], message) == WriteMsg(p, l, p.host.tree.parent[l], message)
  {
    hide Host.Valid, Mirrors, Tree.Valid, Keep, PrintWrite;
    CoverFacts(base, p, rho);
    HostTree(p.host);
    ParentFacts(p.host.tree, l);
  }

  lemma OwnedFile(h: Host, files: Files, x: int)
    requires h.Valid() && h.tree.kids.Keys <= files.Keys
    ensures x in h.tree.parent ==> x in files
  {
    RootFacts(h.tree);
  }

  /** In every state of every run a write to a mirror reaches the file it mirrors and no other. */
  lemma RunWriteIsRouted(run: seq<System>, n: nat, files: Files, l: int, message: string)
    requires Run(run) && n < |run| && message != [] && |Strip(message)| < ROW_SIZE
    requires l in run[n].peer.host.tree.parent && IsMirror(run[n].peer.table, l) && run[n].owner.tree.kids.Keys <= files.Keys
    ensures run[n].owner.Valid() && l in run[n].peer.host.name && run[n].peer.host.tree.parent[l] in run[n].peer.host.name
    ensures exists x :: WritesTo(run[n], files, l, message, x)
  {
    hide Run, Inv, WritesTo, Strip;
    RunInv(run, n);
    StateWriteIsRouted(run[n], files, l, message);
  }

  lemma SameLabel(h: Host, u: Host, rho: map<int, int>, x: int)
    requires SameLabels(h, u, rho) && x in rho
    ensures x in h.name && rho[x] in u.name && u.name[rho[x]] == h.name[x]
  {
  }

  method FindIno(host: Host, ino: int) returns (r: Found<int>)
    requires host.Valid()
    ensures r == FindBy(host, ByIno(ino))
  {
    RootFacts(host.tree);
    r := Find(host.tree, host.tree.kids.Keys, host.dirs, host.tree.root, ByIno(ino));
  }

  /** The owner's side: its name space and the page caches of its files. */
  class FileServer {
    var host: Host
    var files: Files

    /** rdma_write. */
    method Write(buf: string)
      requires host.Valid() && (forall t :: t in Head(buf, 5) ==> |t| < ROW_SIZE) && |Strip(Rest(buf, 5))| < ROW_SIZE
      modifies this`files
      ensures files == RemoteWrite(host, old(files), buf) && files.Keys == old(files).Keys
      ensures forall y :: y in files && files[y] != old(files)[y] ==>
                |Head(buf, 5)| == 5 && y == Wrap(Value(Head(buf, 5)[1])) && y in host.tree.parent
      ensures |Head(buf, 5)| == 5 && Rest(buf, 5) != [] ==>
                var y := Wrap(Value(Head(buf, 5)[1]));
                y in host.tree.parent && y in files && old(files)[y].Valid() ==> Overwrites(old(files)[y], files[y], Strip(Rest(buf, 5)))
    {
      hide Tree.Valid, Head, Rest, Strip, Put, Value, FindBy, Overwrites, File.Valid;
      var rows, payload := TokenizeWrite(buf);
      if |rows| < 5 || payload.None? { return; }
      var ino := StringToInt(rows[1]);
      var found := FindIno(host, ino);
      InoFound(host, ino);
      if found.Entry? && ino in files {
        if files[ino].Valid() { PutIsSplice(files[ino], payload.value); }
        files := files[ino := Put(files[ino], payload.value)];
      }
    }
  }

  /** The peer's side of a write to the mirror `l` below `lp` (wjfs_client_write). */
  method SendWrite(host: Host, table: MappTable, l: int, lp: int, message: string) returns (buf: string)
    requires l in host.name && lp in host.name
    ensures buf == WriteMsg(Peer(host, table.slots[..], {l}, {}), l, lp, message)
  {
    var k := table.Translate((l, lp));
    buf := PrintWrite(k.0, host.name[l], k.1, host.name[lp], message);
  }
}
