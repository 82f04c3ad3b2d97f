/**
 The cursor over a caller's segments: copying out of them and advancing past what was copied.
 */
module IovIters {
  import opened Pages

  function Flat(s: seq<seq<Byte>>): seq<Byte> {
    if s == [] then [] else s[0] + Flat(s[1..])
  }

  lemma FlatNone()
    ensures Flat([]) == []
  {
  }

  lemma {:induction false} FlatSnoc(s: seq<seq<Byte>>, x: seq<Byte>)
    ensures Flat(s + [x]) == Flat(s) + x
  {
    if s == [] {
      assert Flat([x]) == x + Flat([x][1..]);
    } else {
      FlatSnoc(s[1..], x);
      assert (s + [x])[1..] == s[1..] + [x];
    }
  }

  lemma FlatHead(s: seq<seq<Byte>>)
    requires s != []
    ensures Flat(s) == s[0] + Flat(s[1..])
  {
  }

  /** `n` bytes of one segment: how many are left from each of them on. */
  function Countdown(n: nat): (r: seq<nat>)
    ensures |r| == n && forall i :: 0 <= i < n ==> r[i] == n - i
  {
    seq(n, i requires 0 <= i < n => n - i)
  }

  /** For each byte of the segments, how many bytes of its segment are left from it on. */
  ghost function Runs(s: seq<seq<Byte>>): (r: seq<nat>)
    ensures |r| == |Flat(s)|
  {
    if s == [] then [] else Countdown(|s[0]|) + Runs(s[1..])
  }

  lemma RunsHead(s: seq<seq<Byte>>)
    requires s != []
    ensures Runs(s) == Countdown(|s[0]|) + Runs(s[1..]) && Flat(s) == s[0] + Flat(s[1..])
  {
  }

  lemma RunsOne(s: seq<seq<Byte>>)
    requires |s| == 1
    ensures Runs(s) == Countdown(|s[0]|)
  {
    assert s[1..] == [] && Countdown(|s[0]|) + [] == Countdown(|s[0]|);
  }

  /** struct iov_iter.  `segs` are the segments from the iov pointer on; `nrSegs` is the original
      number, which never changes. */
  datatype Iter = Iter(segs: seq<seq<Byte>>, nrSegs: nat, off: nat, count: nat) {

    /** `count` bytes are left, and the cursor stands before one of them. */
    ghost predicate Valid() {
      && off + count <= |Flat(segs)| && (nrSegs == 1 ==> |segs| == 1)
      && (count > 0 ==> segs != [] && off < |segs[0]|)
      && (segs == [] ==> off == 0)
    }

    ghost function Source(): (s: seq<Byte>)
      requires Valid()
      ensures |s| == count
    {
      Flat(segs)[off..off + count]
    }

    /** How much of its segment is left, for each byte that is left. */
    ghost function Left(): (r: seq<nat>)
      requires Valid()
      ensures |r| == count
    {
      Runs(segs)[off..off + count]
    }
  }

  /** __wjfs_iovec_copy_from_user_inatomic: bytes from one segment after the other.  `limit` bytes
      can be read before an access faults. */
  method Gather(segs: seq<seq<Byte>>, off: nat, n: nat, limit: nat) returns (data: seq<Byte>)
    requires off + n <= |Flat(segs)| && (n > 0 ==> segs != [] && off <= |segs[0]|)
    ensures data == Flat(segs)[off..off + Min(n, limit)]
  {
    hide Flat;
    data := [];
    var i: nat, base: nat, bytes: nat := 0, off, n;
    assert segs[0..] == segs;
    while bytes > 0
      invariant i <= |segs| && bytes + |data| == n && |data| <= limit
      invariant data == Flat(segs)[off..off + |data|]
      invariant bytes > 0 ==> i < |segs| && base <= |segs[i]|
      invariant bytes > 0 ==> base <= |Flat(segs[i..])| && Flat(segs[i..])[base..] == Flat(segs)[off + |data|..]
      decreases |segs| - i
    {
      FlatHead(segs[i..]);
      var copy := Min(bytes, |segs[i]| - base);
      var got := Min(copy, limit - |data|);
      var piece := segs[i][base..base + got];
      GatherOn(Flat(segs), off, data, segs[i], Flat(segs[i..][1..]), base, got);
      data := data + piece;
      if got < copy { return; }
      bytes := bytes - copy;
      if bytes > 0 { GatherNext(Flat(segs), off + |data|, segs[i], Flat(segs[i..][1..])); }
      assert segs[i..][1..] == segs[i + 1..];
      base, i := 0, i + 1;
      FlatNone();
      assert i == |segs| ==> segs[i..] == [];
    }
  }

  /** A piece of the current segment continues the data. */
  lemma GatherOn(all: seq<Byte>, off: nat, data: seq<Byte>, seg: seq<Byte>, rest: seq<Byte>, base: nat, got: nat)
    requires off + |data| <= |all| && data == all[off..off + |data|] && base + got <= |seg|
    requires (seg + rest)[base..] == all[off + |data|..]
    ensures off + |data| + got <= |all| && data + seg[base..base + got] == all[off..off + |data| + got]
    ensures (seg + rest)[base + got..] == all[off + |data| + got..]
  {
    var tail := all[off + |data|..];
    assert seg[base..base + got] == tail[..got];
    assert (seg + rest)[base + got..] == tail[got..];
  }

  lemma GatherNext(all: seq<Byte>, at: nat, seg: seq<Byte>, rest: seq<Byte>)
    requires at <= |all| && (seg + rest)[|seg|..] == all[at..]
    ensures rest[0..] == all[at..]
  {
  }

  /** wjfs_iov_iter_copy_from_user_atomic: the path for a single segment and the gather over
      several copy the same bytes, also when a fault cuts the copy short. */
  method CopyFromUser(it: Iter, n: nat, limit: nat) returns (data: seq<Byte>)
    requires it.Valid() && n <= it.count
    ensures data == it.Source()[..Min(n, limit)]
  {
    hide Flat;
    SliceSlice(Flat(it.segs), it.off, it.count, Min(n, limit));
    if it.nrSegs == 1 {
      FlatOne(it.segs);
      data := it.segs[0][it.off..it.off + Min(n, limit)];
    } else {
      data := Gather(it.segs, it.off, n, limit);
    }
  }

  /** iov_iter_single_seg_count, with more than one segment in the iovec. */
  function SingleSegCount(it: Iter): nat
    requires it.count > 0 ==> it.segs != [] && it.off < |it.segs[0]|
  {
    if it.nrSegs == 1 || it.count == 0 then it.count else Min(it.count, |it.segs[0]| - it.off)
  }

  /** It is what is left of the current segment, within what is left at all. */
  lemma SegmentLeft(it: Iter)
    requires it.Valid() && it.count > 0
    ensures SingleSegCount(it) == Min(it.count, it.Left()[0])
  {
    RunsHead(it.segs);
    if it.nrSegs == 1 { FlatOne(it.segs); }
  }

  /** iov_iter_advance: past `n` bytes, and past empty segments while bytes are left.  `it` may
      stand before an empty segment, as iov_iter_init leaves it. */
  method Advance(it: Iter, n: nat) returns (r: Iter)
    requires it.off + it.count <= |Flat(it.segs)| && n <= it.count && (it.nrSegs == 1 ==> |it.segs| == 1)
    requires it.off == 0 || (it.segs != [] && it.off < |it.segs[0]|)
    ensures r.Valid() && r.count == it.count - n && r.nrSegs == it.nrSegs
    ensures r.Source() == Flat(it.segs)[it.off + n..it.off + it.count]
    ensures r.Left() == Runs(it.segs)[it.off + n..it.off + it.count]
  {
    hide Flat, Runs;
    if it.nrSegs == 1 {
      FlatOne(it.segs);
      return it.(off := it.off + n, count := it.count - n);
    }
    var segs, base := SkipOver(it.segs, it.off, n, it.count);
    r := Iter(segs, it.nrSegs, base, it.count - n);
  }

  /** The general path: past `n` of `total` bytes, and past empty segments while bytes are left. */
  method SkipOver(start: seq<seq<Byte>>, off: nat, n: nat, total: nat) returns (segs: seq<seq<Byte>>, base: nat)
    requires off + total <= |Flat(start)| && n <= total && (off == 0 || (start != [] && off < |start[0]|))
    ensures base + total - n <= |Flat(segs)| && Flat(segs)[base..base + total - n] == Flat(start)[off + n..off + total]
    ensures Runs(segs)[base..base + total - n] == Runs(start)[off + n..off + total]
    ensures total - n > 0 ==> segs != [] && base < |segs[0]|
    ensures segs == [] ==> base == 0
  {
    hide Flat, Runs, Rests;
    var bytes: nat, count: nat := n, total;
    segs, base := start, off;
    FlatNone();
    RestsAll(start, off + n, off + total);
    while bytes > 0 || (count > 0 && |segs[0]| == 0)
      invariant bytes <= count && count - bytes == total - n && base + count <= |Flat(segs)|
      invariant base == 0 || (segs != [] && base < |segs[0]|)
      invariant Rests(segs, base + bytes, base + count, start, off + n, off + total)
      decreases |segs|, bytes
    {
      RunsHead(segs);
      var copy := Min(bytes, |segs[0]| - base);
      count, bytes, base := count - copy, bytes - copy, base + copy;
      if |segs[0]| == base {
        RestsNext(segs, bytes, count, start, off + n, off + total);
        segs, base := segs[1..], 0;
      }
    }
    RestsAre(segs, base, base + count, start, off + n, off + total);
  }

  /** The bytes of `a` from `i` to `j` are those of `b` from `lo` to `hi`, with as much of their
      segments left. */
  ghost predicate Rests(a: seq<seq<Byte>>, i: nat, j: nat, b: seq<seq<Byte>>, lo: nat, hi: nat) {
    && i <= j <= |Flat(a)| && lo <= hi <= |Flat(b)|
    && Flat(a)[i..j] == Flat(b)[lo..hi] && Runs(a)[i..j] == Runs(b)[lo..hi]
  }

  lemma RestsAll(b: seq<seq<Byte>>, lo: nat, hi: nat)
    requires lo <= hi <= |Flat(b)|
    ensures Rests(b, lo, hi, b, lo, hi)
  {
  }

  lemma RestsAre(a: seq<seq<Byte>>, i: nat, j: nat, b: seq<seq<Byte>>, lo: nat, hi: nat)
    requires Rests(a, i, j, b, lo, hi)
    ensures i <= j <= |Flat(a)| && lo <= hi <= |Flat(b)|
    ensures Flat(a)[i..j] == Flat(b)[lo..hi] && Runs(a)[i..j] == Runs(b)[lo..hi]
  {
  }

  lemma RestsNext(a: seq<seq<Byte>>, i: nat, j: nat, b: seq<seq<Byte>>, lo: nat, hi: nat)
    requires a != [] && Rests(a, |a[0]| + i, |a[0]| + j, b, lo, hi)
    ensures Rests(a[1..], i, j, b, lo, hi)
  {
    hide Flat, Runs;
    RunsHead(a);
    SkipSegment(a[0], Flat(a[1..]), i, j);
    SkipSegment(Countdown(|a[0]|), Runs(a[1..]), i, j);
  }

  lemma SliceSlice(s: seq<Byte>, at: nat, n: nat, k: nat)
    requires at + n <= |s| && k <= n
    ensures s[at..at + n][..k] == s[at..at + k]
  {
  }

  lemma FlatOne(s: seq<seq<Byte>>)
    requires |s| == 1
    ensures Flat(s) == s[0]
  {
    assert s[1..] == [] && s[0] + [] == s[0];
  }

  lemma SkipSegment<T>(seg: seq<T>, rest: seq<T>, i: nat, j: nat)
    requires i <= j <= |rest|
    ensures (seg + rest)[|seg| + i..|seg| + j] == rest[i..j]
  {
  }

  /** iov_iter_init. */
  method InitIter(segs: seq<seq<Byte>>, count: nat) returns (it: Iter)
    requires count <= |Flat(segs)|
    ensures it.Valid() && it.count == count && it.Source() == Flat(segs)[..count] && it.Left() == Runs(segs)[..count]
  {
    hide Flat, Runs;
    it := Advance(Iter(segs, |segs|, 0, count), 0);
    assert Flat(segs)[0 + 0..0 + count] == Flat(segs)[..count] && Runs(segs)[0 + 0..0 + count] == Runs(segs)[..count];
  }
}
