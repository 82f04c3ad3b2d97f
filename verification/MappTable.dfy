/**
 The inode mapping table: a fixed array of slots searched from the front, which stands for a
 finite map from the owner's (inode, parent inode) to the mirror's.
 */
module MappTables {

  const SLOTS: nat := 1024

  /** struct reg_ino_mapp_table, without the name and address it only prints. */
  datatype Slot = Slot(used: bool, localIno: int, rdmaIno: int, localParent: int, rdmaParent: int)

  type Key = (int, int)

  function KeyOf(e: Slot): Key { (e.rdmaIno, e.rdmaParent) }

  function Target(e: Slot): Key { (e.localIno, e.localParent) }

  // ---------------------------------------------------------------- the searches

  /** The first free slot, or the length of the table. */
  function FirstFree(s: seq<Slot>): (i: nat)
    ensures i <= |s| && (forall j :: 0 <= j < i ==> s[j].used) && (i < |s| ==> !s[i].used)
  {
    if s == [] || !s[0].used then 0
    else
      var i := FirstFree(s[1..]);
      assert forall j :: 0 < j < i + 1 ==> s[j] == s[1..][j - 1];
      i + 1
  }

  /** The first used slot with the owner's key `k`, or the length of the table. */
  function FirstMatch(s: seq<Slot>, k: Key): (i: nat)
    ensures i <= |s| && (forall j :: 0 <= j < i ==> !(s[j].used && KeyOf(s[j]) == k))
    ensures i < |s| ==> s[i].used && KeyOf(s[i]) == k
  {
    if s == [] || (s[0].used && KeyOf(s[0]) == k) then 0
    else
      var i := FirstMatch(s[1..], k);
      assert forall j :: 0 < j < i + 1 ==> s[j] == s[1..][j - 1];
      i + 1
  }

  /** The first used slot of the mirror `l`, or the length of the table. */
  function FirstLocal(s: seq<Slot>, l: Key): (i: nat)
    ensures i <= |s| && (forall j :: 0 <= j < i ==> !(s[j].used && Target(s[j]) == l))
    ensures i < |s| ==> s[i].used && Target(s[i]) == l
  {
    if s == [] || (s[0].used && Target(s[0]) == l) then 0
    else
      var i := FirstLocal(s[1..], l);
      assert forall j :: 0 < j < i + 1 ==> s[j] == s[1..][j - 1];
      i + 1
  }

  function Inserted(s: seq<Slot>, e: Slot): (r: seq<Slot>)
    ensures |r| == |s|
  {
    if FirstFree(s) < |s| then s[FirstFree(s) := e] else s
  }

  function Removed(s: seq<Slot>, k: Key): (r: seq<Slot>)
    ensures |r| == |s|
  {
    var i := FirstMatch(s, k);
    if i < |s| then s[i := s[i].(used := false)] else s
  }

  class MappTable {
    const slots: array<Slot>

    /** wjfs_fill_super: every slot free. */
    constructor ()
      ensures fresh(slots) && slots.Length == SLOTS == 1024 && forall i :: 0 <= i < SLOTS ==> !slots[i].used
    {
      slots := new Slot[SLOTS](i => Slot(false, 0, 0, 0, 0));
    }

    /** The slot loop of rdma_create.  With no free slot the original writes past the array; here
        the table stays as it is and `i` is its length. */
    method Insert(e: Slot) returns (i: nat)
      requires e.used
      modifies slots
      ensures slots[..] == Inserted(old(slots[..]), e)
      ensures i == FirstFree(old(slots[..]))
    {
      i := 0;
      while i < slots.Length
        invariant i <= slots.Length
        invariant forall j :: 0 <= j < i ==> slots[j].used
        invariant slots[..] == old(slots[..])
      {
        if !slots[i].used { break; }
        i := i + 1;
      }
      if i < slots.Length { slots[i] := e; }
    }

    /** The table half of rdma_remove: frees the slot and reports the mirror it stood for, or
        (0, 0). */
    method Remove(k: Key) returns (l: Key)
      modifies slots
      ensures slots[..] == Removed(old(slots[..]), k)
      ensures var i := FirstMatch(old(slots[..]), k); l == if i < slots.Length then Target(old(slots[i])) else (0, 0)
    {
      l := (0, 0);
      var i := 0;
      while i < slots.Length
        invariant i <= slots.Length
        invariant forall j :: 0 <= j < i ==> !(slots[j].used && KeyOf(slots[j]) == k)
        invariant slots[..] == old(slots[..])
      {
        if slots[i].used && KeyOf(slots[i]) == k {
          l := Target(slots[i]);
          slots[i] := slots[i].(used := false);
          return;
        }
        i := i + 1;
      }
    }

    /** The translation in wjfs_client_write and wjfs_client_read: the owner's key of the mirror
        `l`, or (0, 0). */
    method Translate(l: Key) returns (k: Key)
      ensures var i := FirstLocal(slots[..], l); k == if i < slots.Length then KeyOf(slots[i]) else (0, 0)
    {
      k := (0, 0);
      var i := 0;
      while i < slots.Length
        invariant i <= slots.Length
        invariant forall j :: 0 <= j < i ==> !(slots[j].used && Target(slots[j]) == l)
      {
        if slots[i].used && Target(slots[i]) == l { return KeyOf(slots[i]); }
        i := i + 1;
      }
    }

    /** is_my_file. */
    method IsMyFile(ino: int) returns (mine: bool)
      ensures mine <==> !IsMirror(slots[..], ino)
    {
      mine := true;
      var i := 0;
      while i < slots.Length
        invariant i <= slots.Length
        invariant forall j :: 0 <= j < i ==> !(slots[j].used && slots[j].localIno == ino)
      {
        if slots[i].used && slots[i].localIno == ino { return false; }
        i := i + 1;
      }
    }
  }

  predicate IsMirror(s: seq<Slot>, ino: int) {
    exists i :: 0 <= i < |s| && s[i].used && s[i].localIno == ino
  }

  // ---------------------------------------------------------------- the map it stands for

  /** Live keys and live mirror inodes are unique. */
  ghost predicate Unique(s: seq<Slot>) {
    forall i, j :: 0 <= i < j < |s| && s[i].used && s[j].used ==>
      KeyOf(s[i]) != KeyOf(s[j]) && s[i].localIno != s[j].localIno
  }

  ghost function Entries(s: seq<Slot>): (m: map<Key, Key>)
    requires Unique(s)
  {
    map i | 0 <= i < |s| && s[i].used :: KeyOf(s[i]) := Target(s[i])
  }

  function Used(s: seq<Slot>): nat {
    if s == [] then 0 else (if s[0].used then 1 else 0) + Used(s[1..])
  }

  lemma {:induction false} UsedUpdate(s: seq<Slot>, i: nat, e: Slot)
    requires i < |s|
    ensures Used(s[i := e]) == Used(s) - (if s[i].used then 1 else 0) + (if e.used then 1 else 0)
  {
    if i == 0 {
      assert s[0 := e][1..] == s[1..];
    } else {
      assert s[i := e][1..] == s[1..][i - 1 := e];
      UsedUpdate(s[1..], i - 1, e);
    }
  }

  /** Insertion finds no slot exactly when every slot is used. */
  lemma {:induction false} FullIffUsed(s: seq<Slot>)
    ensures Used(s) <= |s|
    ensures FirstFree(s) == |s| <==> Used(s) == |s|
  {
    if s != [] { FullIffUsed(s[1..]); }
  }

  lemma EntryAt(s: seq<Slot>, i: nat)
    requires Unique(s) && i < |s| && s[i].used
    ensures KeyOf(s[i]) in Entries(s) && Entries(s)[KeyOf(s[i])] == Target(s[i])
  {
  }

  lemma EntryFrom(s: seq<Slot>, k: Key) returns (i: nat)
    requires Unique(s) && k in Entries(s)
    ensures i < |s| && s[i].used && KeyOf(s[i]) == k && Target(s[i]) == Entries(s)[k]
  {
    i :| 0 <= i < |s| && s[i].used && KeyOf(s[i]) == k;
  }

  lemma InsertUnique(s: seq<Slot>, i: nat, e: Slot)
    requires Unique(s) && e.used && i < |s| && !s[i].used && KeyOf(e) !in Entries(s) && !IsMirror(s, e.localIno)
    ensures Unique(s[i := e])
  {
    forall j | 0 <= j < |s| && s[j].used ensures KeyOf(s[j]) != KeyOf(e) { EntryAt(s, j); }
    hide Entries;
  }

  /** Inserting a new key and a new mirror adds one entry to the map. */
  lemma InsertRefines(s: seq<Slot>, e: Slot)
    requires Unique(s) && e.used && FirstFree(s) < |s|
    requires KeyOf(e) !in Entries(s) && !IsMirror(s, e.localIno)
    ensures Unique(Inserted(s, e)) && Entries(Inserted(s, e)) == Entries(s)[KeyOf(e) := Target(e)]
    ensures Used(Inserted(s, e)) == Used(s) + 1
  {
    hide Entries, FirstFree, Unique, Used;
    var i := FirstFree(s);
    var r := s[i := e];
    UsedUpdate(s, i, e);
    InsertUnique(s, i, e);
    var m, m' := Entries(r), Entries(s)[KeyOf(e) := Target(e)];
    forall k | k in m ensures k in m' && m[k] == m'[k] {
      var j := EntryFrom(r, k);
      if j != i { EntryAt(s, j); }
    }
    forall k | k in m' ensures k in m {
      if k == KeyOf(e) { EntryAt(r, i); } else { var j := EntryFrom(s, k); EntryAt(r, j); }
    }
  }

  /** Removing a key takes exactly that entry out of the map. */
  lemma RemoveRefines(s: seq<Slot>, k: Key)
    requires Unique(s)
    ensures Unique(Removed(s, k)) && Entries(Removed(s, k)) == Entries(s) - {k}
    ensures Used(Removed(s, k)) == Used(s) - if k in Entries(s) then 1 else 0
    ensures FirstMatch(s, k) < |s| <==> k in Entries(s)
    ensures k in Entries(s) ==> Target(s[FirstMatch(s, k)]) == Entries(s)[k]
  {
    hide Entries, FirstMatch, Unique, Used;
    var i := FirstMatch(s, k);
    if k in Entries(s) { var j := EntryFrom(s, k); }
    if i < |s| {
      EntryAt(s, i);
      RemoveEntry(s, i);
      UsedUpdate(s, i, s[i].(used := false));
    } else {
      assert Entries(s) - {k} == Entries(s);
    }
  }

  lemma RemoveEntry(s: seq<Slot>, i: nat)
    requires Unique(s) && i < |s| && s[i].used
    ensures var r := s[i := s[i].(used := false)]; Unique(r) && Entries(r) == Entries(s) - {KeyOf(s[i])}
  {
    hide Entries;
    var r := s[i := s[i].(used := false)];
    var m, m' := Entries(r), Entries(s) - {KeyOf(s[i])};
    forall k | k in m ensures k in m' && m[k] == m'[k] {
      var j := EntryFrom(r, k);
      EntryAt(s, j);
    }
    forall k | k in m' ensures k in m {
      var j := EntryFrom(s, k);
      EntryAt(r, j);
    }
  }

  /** A mirror's translation is the key it is the target of. */
  lemma TranslateRefines(s: seq<Slot>, l: Key)
    requires Unique(s)
    ensures var i := FirstLocal(s, l);
            if i < |s| then KeyOf(s[i]) in Entries(s) && Entries(s)[KeyOf(s[i])] == l
            else forall k :: k in Entries(s) ==> Entries(s)[k] != l
  {
  }

  lemma MirrorIffEntry(s: seq<Slot>, ino: int)
    requires Unique(s)
    ensures IsMirror(s, ino) <==> exists k :: k in Entries(s) && Entries(s)[k].0 == ino
  {
    if IsMirror(s, ino) {
      var i :| 0 <= i < |s| && s[i].used && s[i].localIno == ino;
      assert Entries(s)[KeyOf(s[i])].0 == ino;
    }
  }

  // ---------------------------------------------------------------- runs

  datatype TableOp = Add(e: Slot) | Del(k: Key)

  function RunTable(s: seq<Slot>, ops: seq<TableOp>): seq<Slot>
    decreases |ops|
  {
    if ops == [] then s
    else RunTable(match ops[0] case Add(e) => Inserted(s, e) case Del(k) => Removed(s, k), ops[1..])
  }

  function StepMap(m: map<Key, Key>, op: TableOp): map<Key, Key> {
    match op case Add(e) => m[KeyOf(e) := Target(e)] case Del(k) => m - {k}
  }

  function RunMap(m: map<Key, Key>, ops: seq<TableOp>): map<Key, Key>
    decreases |ops|
  {
    if ops == [] then m else RunMap(StepMap(m, ops[0]), ops[1..])
  }

  /** Every creation along the run brings a new key and a new mirror, and finds room. */
  predicate Admissible(m: map<Key, Key>, ops: seq<TableOp>, room: nat)
    decreases |ops|
  {
    ops != [] ==>
      && (ops[0].Add? ==> var e := ops[0].e;
            e.used && KeyOf(e) !in m && (forall k :: k in m ==> m[k].0 != e.localIno) && |m| < room)
      && Admissible(StepMap(m, ops[0]), ops[1..], room)
  }

  /** Along every admissible run the table is the map, and as many slots are used as the map has
      entries. */
  lemma {:induction false} TableRun(s: seq<Slot>, ops: seq<TableOp>)
    requires Unique(s) && Used(s) == |Entries(s)| && Admissible(Entries(s), ops, |s|)
    ensures Unique(RunTable(s, ops)) && Entries(RunTable(s, ops)) == RunMap(Entries(s), ops)
    ensures Used(RunTable(s, ops)) == |RunMap(Entries(s), ops)|
    decreases |ops|
  {
    hide Entries, Unique, Used;
    if ops != [] {
      match ops[0]
      case Add(e) =>
        FullIffUsed(s);
        MirrorIffEntry(s, e.localIno);
        InsertRefines(s, e);
        TableRun(Inserted(s, e), ops[1..]);
      case Del(k) =>
        RemoveRefines(s, k);
        RemoveSize(Entries(s), k);
        TableRun(Removed(s, k), ops[1..]);
    }
  }

  lemma RemoveSize(m: map<Key, Key>, k: Key)
    ensures |m - {k}| == |m| - if k in m then 1 else 0
  {
    assert (m - {k}).Keys == m.Keys - {k};
    assert |m.Keys| == |m| && |(m - {k}).Keys| == |m - {k}|;
  }
}
