/**
 A file as the page cache holds it, and the bytes it stands for.
 */
module Pages {

  const PAGE: nat := 4096

  type Byte = x: int | 0 <= x < 256

  function Min(a: int, b: int): int { if a < b then a else b }

  function Max(a: int, b: int): int { if a < b then b else a }

  function Zeros(n: nat): (s: seq<Byte>)
    ensures |s| == n && forall i :: 0 <= i < n ==> s[i] == 0
  {
    seq(n, i => 0)
  }

  type Page = s: seq<Byte> | |s| == PAGE witness Zeros(PAGE)

  /** Cached pages by index, all up to date, and i_size.  Pages not cached read as zeros, and
      what lies past i_size in a cached page is zero. */
  datatype File = File(pages: map<nat, Page>, size: nat) {

    ghost predicate Valid() {
      (forall i, j :: i in pages && 0 <= j < |pages[i]| && i * PAGE + j >= size ==> pages[i][j] == 0)
    }

    ghost function ByteAt(k: nat): Byte
      requires Valid()
    {
      if k / PAGE in pages then pages[k / PAGE][k % PAGE] else 0
    }

    ghost function Bytes(): (b: seq<Byte>)
      requires Valid()
      ensures |b| == size && forall k :: 0 <= k < size ==> b[k] == ByteAt(k)
    {
      seq(size, k requires 0 <= k < size => ByteAt(k))
    }
  }

  lemma SplitPosition(i: nat, j: nat)
    requires j < PAGE
    ensures (i * PAGE + j) / PAGE == i && (i * PAGE + j) % PAGE == j
  {
  }

  lemma JoinPosition(k: nat)
    ensures k / PAGE * PAGE + k % PAGE == k && k % PAGE < PAGE
  {
  }

  /** Part of a cached page is part of the file. */
  lemma PageSlice(f: File, i: nat, from: nat, n: nat)
    requires f.Valid() && i in f.pages && from + n <= PAGE && i * PAGE + from + n <= f.size
    ensures f.pages[i][from..from + n] == f.Bytes()[i * PAGE + from..i * PAGE + from + n]
  {
    hide File.Valid, File.Bytes;
    var p := i * PAGE + from;
    var a, b := f.pages[i][from..from + n], f.Bytes()[p..p + n];
    forall j | 0 <= j < n ensures a[j] == b[j] { PageByte(f, i, from + j); }
  }

  lemma PageByte(f: File, i: nat, j: nat)
    requires f.Valid() && i in f.pages && j < PAGE && i * PAGE + j < f.size
    ensures f.Bytes()[i * PAGE + j] == f.pages[i][j]
  {
    SplitPosition(i, j);
  }

  /** Caching a page that was not cached, zero-filled by simple_readpage, changes no byte. */
  lemma CacheZeroPage(f: File, i: nat)
    requires f.Valid() && i !in f.pages
    ensures f.(pages := f.pages[i := Zeros(PAGE)]).Valid() && f.(pages := f.pages[i := Zeros(PAGE)]).Bytes() == f.Bytes()
  {
    var g := f.(pages := f.pages[i := Zeros(PAGE)]);
    forall k | 0 <= k < f.size ensures g.ByteAt(k) == f.ByteAt(k) { JoinPosition(k); }
  }

  // ---------------------------------------------------------------- writing

  /** `was` with `data` at `pos`, zeros from there up to `zeroTo` within the file, and zeros in
      the gap if `pos` lies past the end. */
  function Patch(was: seq<Byte>, pos: nat, data: seq<Byte>, zeroTo: nat): (r: seq<Byte>)
    ensures |r| == Max(|was|, pos + |data|)
    ensures forall k :: 0 <= k < |r| ==> r[k] == PatchAt(was, pos, data, zeroTo, k)
  {
    seq(Max(|was|, pos + |data|), k requires 0 <= k => PatchAt(was, pos, data, zeroTo, k))
  }

  function PatchAt(was: seq<Byte>, pos: nat, data: seq<Byte>, zeroTo: nat, k: nat): Byte {
    if pos <= k < pos + |data| then data[k - pos]
    else if pos <= k < zeroTo then 0
    else if k < |was| then was[k] else 0
  }

  /** The promise of write: `data` at `pos`, and every other byte as it was; writing nothing does
      nothing. */
  function Splice(was: seq<Byte>, pos: nat, data: seq<Byte>): (r: seq<Byte>)
    ensures data == [] ==> r == was
    ensures data != [] ==> |r| == Max(|was|, pos + |data|) && r[pos..pos + |data|] == data
    ensures forall k :: 0 <= k < |was| && !(pos <= k < pos + |data|) ==> r[k] == was[k]
    ensures forall k :: |was| <= k < |r| && k < pos ==> r[k] == 0
  {
    if data == [] then was else Patch(was, pos, data, 0)
  }

  /** The two agree exactly when the zeroed bytes were zero already and, if there is no data, the
      position lies within the file. */
  lemma PatchIsSplice(was: seq<Byte>, pos: nat, data: seq<Byte>, zeroTo: nat)
    ensures Patch(was, pos, data, zeroTo) == Splice(was, pos, data)
            <==> (data == [] ==> pos <= |was|) && forall k :: pos + |data| <= k < zeroTo && k < |was| ==> was[k] == 0
  {
    var p, s := Patch(was, pos, data, zeroTo), Splice(was, pos, data);
    if forall k :: pos + |data| <= k < zeroTo && k < |was| ==> was[k] == 0 {
      if data != [] || pos <= |was| { assert p == s; } else { assert |p| > |s|; }
    } else {
      var k :| pos + |data| <= k < zeroTo && k < |was| && was[k] != 0;
      assert p[k] == 0 && s[k] == was[k];
    }
  }

  /** Patching on from where the last patch ended. */
  lemma PatchPatch(was: seq<Byte>, pos: nat, a: seq<Byte>, y: nat, b: seq<Byte>, z: nat)
    ensures Patch(Patch(was, pos, a, y), pos + |a|, b, z) == Patch(was, pos, a + b, Max(y, z))
  {
    var p := Patch(was, pos, a, y);
    var q, r := Patch(p, pos + |a|, b, z), Patch(was, pos, a + b, Max(y, z));
    forall k | 0 <= k < |q| ensures q[k] == r[k] {
      if pos <= k < pos + |a| { assert (a + b)[k - pos] == a[k - pos]; }
      else if pos + |a| <= k < pos + |a| + |b| { assert (a + b)[k - pos] == b[k - pos - |a|]; }
    }
  }

  /** One page write: `write_begin`, the copy of `data` out of `len` bytes asked for, and
      `write_end`, which zeroes what was not copied. */
  function WriteChunk(f: File, pos: nat, len: nat, data: seq<Byte>): (g: File)
    requires pos % PAGE + len <= PAGE && |data| <= len
  {
    var i, from := pos / PAGE, pos % PAGE;
    var page := if i in f.pages then f.pages[i] else Zeros(PAGE);
    File(f.pages[i := page[..from] + data + Zeros(len - |data|) + page[from + len..]], Max(f.size, pos + |data|))
  }

  lemma ChunkPage(f: File, pos: nat, len: nat, data: seq<Byte>, j: nat)
    requires f.Valid() && pos % PAGE + len <= PAGE && |data| <= len && j < PAGE
    ensures var i, from, g := pos / PAGE, pos % PAGE, WriteChunk(f, pos, len, data);
            && i in g.pages && |g.pages[i]| == PAGE
            && g.pages[i][j] == if from <= j < from + |data| then data[j - from]
                                else if from <= j < from + len then 0
                                else if i in f.pages then f.pages[i][j] else 0
  {
  }

  lemma ChunkValid(f: File, pos: nat, len: nat, data: seq<Byte>)
    requires f.Valid() && pos % PAGE + len <= PAGE && |data| <= len
    ensures WriteChunk(f, pos, len, data).Valid()
  {
    var g := WriteChunk(f, pos, len, data);
    var p := pos / PAGE;
    JoinPosition(pos);
    ChunkPage(f, pos, len, data, 0);
    forall i, j | i in g.pages && 0 <= j < |g.pages[i]| && i * PAGE + j >= g.size ensures g.pages[i][j] == 0 {
      if i == p { ChunkPage(f, pos, len, data, j); }
    }
  }

  /** On the bytes of the file it is a patch. */
  lemma ChunkBytes(f: File, pos: nat, len: nat, data: seq<Byte>)
    requires f.Valid() && pos % PAGE + len <= PAGE && |data| <= len
    ensures WriteChunk(f, pos, len, data).Valid()
    ensures WriteChunk(f, pos, len, data).Bytes() == Patch(f.Bytes(), pos, data, pos + len)
  {
    ChunkValid(f, pos, len, data);
    var g := WriteChunk(f, pos, len, data);
    var r := Patch(f.Bytes(), pos, data, pos + len);
    forall k | 0 <= k < g.size ensures g.ByteAt(k) == r[k] { ChunkByte(f, pos, len, data, k); }
  }

  lemma ChunkByte(f: File, pos: nat, len: nat, data: seq<Byte>, k: nat)
    requires f.Valid() && pos % PAGE + len <= PAGE && |data| <= len && WriteChunk(f, pos, len, data).Valid()
    ensures WriteChunk(f, pos, len, data).ByteAt(k) == PatchAt(f.Bytes(), pos, data, pos + len, k)
  {
    JoinPosition(pos);
    JoinPosition(k);
    ChunkPage(f, pos, len, data, k % PAGE);
  }
}
