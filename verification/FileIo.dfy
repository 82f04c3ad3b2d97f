/**
 The paged read and write loops over one inode's page cache.
 */
module FileIo {
  import opened Pages
  import opened IovIters

  const EFAULT: int := -14

  /** What the environment does to one turn of the read loop: the page is there, or getting it
      fails; and when it is there, `unwritable` bytes at the end of the copy fault. */
  datatype ReadEvent = Serve(unwritable: nat) | PageError(code: int)

  /** The error a turn leads to, or 0. */
  function ReadFailure(e: ReadEvent): int {
    if e.PageError? then e.code else if e.unwritable > 0 then EFAULT else 0
  }

  /** How much of `room` bytes a turn delivers, and the error it reports. */
  function Served(e: ReadEvent, room: nat): nat {
    if e.PageError? then 0 else room - Min(e.unwritable, room)
  }

  function TurnError(e: ReadEvent, room: nat): int {
    if e.PageError? then e.code else if e.unwritable > 0 && room > 0 then EFAULT else 0
  }

  function Sum(s: seq<nat>): nat {
    if s == [] then 0 else s[0] + Sum(s[1..])
  }

  /** The bytes a read may deliver: those from `pos` up to the end of the file, at most `n`. */
  function Readable(b: seq<Byte>, pos: nat, n: nat): (r: seq<Byte>)
    ensures |r| == Min(n, Max(0, |b| - pos))
  {
    if pos >= |b| then [] else b[pos..Min(pos + n, |b|)]
  }

  /** Where turn `k` starts when each turn before has read its page to the end. */
  function TurnAt(size: nat, pos: nat, k: nat): nat {
    if k == 0 then pos else Min((pos / PAGE + k) * PAGE, size)
  }

  /** How much is left to deliver on the page of `p`. */
  function TurnRoom(b: seq<Byte>, p: nat, count: nat): nat { Min(PageEnd(p) - p, |Readable(b, p, count)|) }

  /** A read of `total` bytes at `pos` ends in turn `k`, the first one to fail if it fails, having
      delivered `n` bytes. */
  ghost predicate EndsIn(b: seq<Byte>, pos: nat, total: nat, env: nat -> ReadEvent, k: nat, n: nat, error: int) {
    && (forall j :: 0 <= j < k ==> ReadFailure(env(j)) == 0)
    && pos <= TurnAt(|b|, pos, k) <= pos + total
    && var p := TurnAt(|b|, pos, k);
       var room := TurnRoom(b, p, pos + total - p);
       pos + n == p + Served(env(k), room) && error == TurnError(env(k), room)
  }

  ghost predicate Ends(b: seq<Byte>, pos: nat, total: nat, env: nat -> ReadEvent, n: nat, error: int) {
    exists k: nat :: EndsIn(b, pos, total, env, k, n, error)
  }

  /** Page `index` and `offset` on it are position `k`. */
  predicate Stands(index: nat, offset: nat, k: nat) { offset < PAGE && index * PAGE + offset == k }

  /** The check against i_size: how many bytes of the file lie on page `index` from `offset` on;
      0 stands for leaving the loop. */
  method PageRoom(size: nat, index: nat, offset: nat) returns (nr: nat)
    requires offset < PAGE
    ensures nr == Max(0, Min(PAGE - offset, size - (index * PAGE + offset)))
  {
    if size == 0 || index > (size - 1) / PAGE { return 0; }
    nr := PAGE;
    if index == (size - 1) / PAGE {
      nr := (size - 1) % PAGE + 1;
      if nr <= offset { return 0; }
    }
    nr := nr - offset;
  }

  /** wjfs_file_read_actor: as much of `nr` bytes as the segment has room for, less what faults. */
  method ReadActor(page: seq<Byte>, offset: nat, nr: nat, count: nat, unwritable: nat)
    returns (data: seq<Byte>, error: int)
    requires offset + nr <= |page|
    ensures |data| == Min(nr, count) - Min(unwritable, Min(nr, count))
    ensures data == page[offset..offset + |data|]
    ensures error == if unwritable > 0 && Min(nr, count) > 0 then EFAULT else 0
  {
    var size := Min(nr, count);
    var left := Min(unwritable, size);
    error := 0;
    if left != 0 {
      size := size - left;
      error := EFAULT;
    }
    data := page[offset..offset + size];
  }

  /** What the environment does to one pass of the write loop: faulting the source in fails,
      write_begin fails, or the copy runs and faults after `limit` bytes. */
  datatype Attempt = FaultIn | BeginFails(status: int) | Copies(limit: nat)

  function WriteFailure(a: Attempt): int {
    match a case FaultIn => EFAULT case BeginFails(status) => status case Copies(_) => 0
  }

  /** Attempt `k` is the first that fails. */
  predicate FailsAt(env: seq<Attempt>, k: nat) {
    k < |env| && !env[k].Copies? && forall j :: 0 <= j < k ==> env[j].Copies?
  }

  /** The most that these attempts can copy. */
  function Limits(env: seq<Attempt>): nat {
    if env == [] then 0 else Limits(env[..|env| - 1]) + if env[|env| - 1].Copies? then env[|env| - 1].limit else 0
  }

  /** A file after writing `data` at `pos`: unchanged if no page was tried, else patched. */
  function Written(b: seq<Byte>, pos: nat, data: seq<Byte>, tried: bool, zeroTo: nat): seq<Byte> {
    if tried then Patch(b, pos, data, zeroTo) else b
  }

  /** Nothing but the data differs: no page was tried, or the bytes zeroed past the data were zero
      and nothing was written past the end of the file for no data. */
  predicate Unharmed(b: seq<Byte>, pos: nat, written: nat, tried: bool, zeroTo: nat) {
    !tried || ((written == 0 ==> pos <= |b|) && forall k :: pos + written <= k < zeroTo && k < |b| ==> b[k] == 0)
  }

  /** How far a write that stopped at `at` has zeroed: to the end of the page or of what was asked
      for, or not at all if its last pass copied up to the end of a page. */
  predicate ZeroedTo(at: nat, end: nat, moved: bool, zeroTo: nat) {
    zeroTo == if moved && at % PAGE == 0 then at else Min(PageEnd(at), end)
  }

  /** What the passes of the write loop copied, all together. */
  function Total(got: seq<nat>): nat {
    if got == [] then 0 else Total(got[..|got| - 1]) + got[|got| - 1]
  }

  /** The last pass copied something, or nothing. */
  predicate Moved(got: seq<nat>) { got != [] && got[|got| - 1] > 0 }

  predicate Emptied(got: seq<nat>) { got != [] && got[|got| - 1] == 0 }

  /** What a pass asks for when `done` bytes are written: the rest of the page or of the source, and
      after an empty copy no more than the rest of the current segment.  `left` has what is left of
      the segment for each byte of the source. */
  function AsksFor(pos: nat, left: seq<nat>, done: nat, again: bool): nat
    requires done < |left|
  {
    Min(PAGE - (pos + done) % PAGE, if again then Min(|left| - done, left[done]) else |left| - done)
  }

  /** Pass `j` found bytes to copy and copied what it asked for, or as much as its attempt allows. */
  ghost predicate CopiedIn(env: seq<Attempt>, pos: nat, left: seq<nat>, got: seq<nat>, j: nat)
    requires j < |got|
  {
    && Total(got[..j]) < |left|
    && var asks := AsksFor(pos, left, Total(got[..j]), Emptied(got[..j]));
       if j < |env| then env[j].Copies? && got[j] == Min(asks, env[j].limit) else got[j] == asks
  }

  ghost predicate Copied(env: seq<Attempt>, pos: nat, left: seq<nat>, got: seq<nat>) {
    forall j :: 0 <= j < |got| ==> CopiedIn(env, pos, left, got, j)
  }

  /** The first position past the page of `k`. */
  function PageEnd(k: nat): nat { (k / PAGE + 1) * PAGE }

  predicate OnePage(at: nat, bytes: nat) { at % PAGE + bytes <= PAGE }

  /** As much of `n` bytes as the page of `at` has room for. */
  function Chunk(at: nat, n: nat): (bytes: nat)
    ensures OnePage(at, bytes) && bytes <= n && (n > 0 ==> bytes > 0)
  {
    Min(PAGE - at % PAGE, n)
  }

  class Inode {
    var f: File

    /** find_get_page, or a new page filled by readpage: the page is cached, no byte changes. */
    method GetPage(index: nat) returns (page: seq<Byte>)
      requires f.Valid()
      modifies this
      ensures f.Valid() && f.Bytes() == old(f.Bytes()) && f.size == old(f.size)
      ensures index in f.pages && page == f.pages[index] && |page| == PAGE
    {
      if index !in f.pages {
        CacheZeroPage(f, index);
        f := f.(pages := f.pages[index := Zeros(PAGE)]);
      }
      page := f.pages[index];
    }

    /** One turn of the loop of do_generic_file_read, at position `p`: the bytes of one page that
        are wanted, or why there are none. */
    method ReadTurn(index: nat, offset: nat, count: nat, event: ReadEvent, ghost p: nat)
      returns (data: seq<Byte>, error: int, index': nat, offset': nat, more: bool)
      requires f.Valid() && Stands(index, offset, p) && count > 0 && (event.PageError? ==> event.code != 0)
      modifies this
      ensures f.Valid() && f.Bytes() == old(f.Bytes())
      ensures data <= Readable(f.Bytes(), p, count) && Stands(index', offset', p + |data|)
      ensures |data| == Served(event, TurnRoom(f.Bytes(), p, count)) && error == TurnError(event, TurnRoom(f.Bytes(), p, count))
      ensures more ==> error == 0 && ReadFailure(event) == 0 && 0 < |data| < count && p + |data| == Min(PageEnd(p), |f.Bytes()|)
      ensures !more && error == 0 ==> data == Readable(f.Bytes(), p, count)
    {
      hide File.Valid, File.Bytes;
      PageEndAt(index, offset, p);
      ReadNone(f.Bytes(), p, count);
      data, error, index', offset', more := [], 0, index, offset, false;
      if event.PageError? {
        error := event.code;
        return;
      }
      var page := GetPage(index);
      var nr := PageRoom(f.size, index, offset);
      if nr == 0 {
        ReadDone(f.Bytes(), p, count, []);
        return;
      }
      data, error := ReadActor(page, offset, nr, count, event.unwritable);
      PageSlice(f, index, offset, |data|);
      ReadHere(f.Bytes(), p, count, data);
      JoinPosition(offset + |data|);
      index', offset' := index + (offset + |data|) / PAGE, (offset + |data|) % PAGE;
      more := |data| == nr && count - |data| != 0;
    }

    /** do_generic_file_read with wjfs_file_read_actor, for one segment of `total` bytes.  It
        delivers a prefix of the readable bytes in order, accounts for every byte, and moves the
        position by what it delivered; unless it reports an error, it delivers all of them. */
    method ReadSegment(pos: nat, total: nat, env: nat -> ReadEvent)
      returns (next: nat, count: nat, out: seq<Byte>, error: int)
      requires f.Valid() && total > 0 && forall k :: env(k).PageError? ==> env(k).code != 0
      modifies this
      ensures f.Valid() && f.Bytes() == old(f.Bytes())
      ensures next == pos + |out| && count + |out| == total
      ensures out <= Readable(f.Bytes(), pos, total)
      ensures error == 0 ==> out == Readable(f.Bytes(), pos, total)
      ensures Ends(f.Bytes(), pos, total, env, |out|, error)
    {
      hide File.Valid, File.Bytes, Readable, Stands, ReadFailure, PageEnd, TurnAt, TurnRoom, Served, TurnError;
      var index: nat, offset: nat := pos / PAGE, pos % PAGE;
      StandsAt(pos);
      count, out, error := total, [], 0;
      ghost var b := f.Bytes();
      ReadNone(b, pos, total);
      var k: nat := 0;
      FirstTurn(|b|, pos);
      while true
        invariant f.Valid() && f.Bytes() == b && error == 0
        invariant pos + |out| == TurnAt(|b|, pos, k) && forall j :: 0 <= j < k ==> ReadFailure(env(j)) == 0
        invariant Stands(index, offset, pos + |out|)
        invariant count + |out| == total && count > 0
        invariant out <= Readable(b, pos, total)
        decreases count
      {
        var data, more;
        data, error, index, offset, more := ReadTurn(index, offset, count, env(k), pos + |out|);
        ReadMore(b, pos, total, out, count, data);
        out := out + data;
        count := count - |data|;
        if !more {
          assert EndsIn(b, pos, total, env, k, |out|, error);
          break;
        }
        NextTurn(|b|, pos, k);
        k := k + 1;
      }
      StandsFacts(index, offset, pos + |out|);
      next := index * PAGE + offset;
    }

    /** One turn of the loop over segments, which passes empty ones by. */
    method ReadInto(pos: nat, total: nat, env: nat -> ReadEvent)
      returns (next: nat, count: nat, out: seq<Byte>, error: int)
      requires f.Valid() && forall k :: env(k).PageError? ==> env(k).code != 0
      modifies this
      ensures f.Valid() && f.Bytes() == old(f.Bytes())
      ensures next == pos + |out| && count + |out| == total && out <= Readable(f.Bytes(), pos, total)
      ensures error == 0 ==> out == Readable(f.Bytes(), pos, total)
      ensures if total > 0 then Ends(f.Bytes(), pos, total, env, |out|, error) else error == 0
    {
      hide File.Valid, File.Bytes, Readable, Ends;
      if total == 0 {
        ReadNone(f.Bytes(), pos, 0);
        return pos, 0, [], 0;
      }
      next, count, out, error := ReadSegment(pos, total, env);
    }

    /** wjfs_file_aio_read over the segments of an iovec.  The segments receive, in order, a
        prefix of the readable bytes, every segment but the last one reached filled up; the return
        value is the number of bytes, or the error if there are none.  Without an error they
        receive all readable bytes. */
    method AioRead(pos: nat, lens: seq<nat>, env: nat -> nat -> ReadEvent)
      returns (retval: int, next: nat, outs: seq<seq<Byte>>, error: int)
      requires f.Valid() && forall s, k :: env(s)(k).PageError? ==> env(s)(k).code != 0
      modifies this
      ensures f.Valid() && f.Bytes() == old(f.Bytes())
      ensures |outs| <= |lens| && forall s :: 0 <= s < |outs| ==> |outs[s]| <= lens[s] && (s < |outs| - 1 ==> |outs[s]| == lens[s])
      ensures next == pos + |Flat(outs)| && (outs != [] ==> |outs[|outs| - 1]| <= |Flat(outs)|)
      ensures Flat(outs) <= Readable(f.Bytes(), pos, Sum(lens))
      ensures error == 0 ==> Flat(outs) == Readable(f.Bytes(), pos, Sum(lens))
      ensures forall s :: 0 <= s < |outs| && lens[s] > 0 ==> SegmentEnds(f.Bytes(), pos, lens, env, outs, s, error)
      ensures |outs| < |lens| ==> outs != [] && (error != 0 || |outs[|outs| - 1]| < lens[|outs| - 1])
      ensures error != 0 ==> outs != [] && lens[|outs| - 1] > 0
      ensures retval == if Flat(outs) == [] then error else |Flat(outs)|
    {
      hide File.Valid, File.Bytes, Readable, Flat, Ends, Sum, Filled, SegmentEnds;
      retval, next, outs, error := 0, pos, [], 0;
      FlatNone();
      ReadNone(f.Bytes(), pos, Sum(lens));
      FilledNone(lens);
      ghost var b, total := f.Bytes(), Sum(lens);
      while |outs| < |lens|
        invariant |outs| <= |lens| && Filled(outs, lens) && error == 0 && f.Valid() && f.Bytes() == b
        invariant Flat(outs) <= Readable(b, pos, total) && |Flat(outs)| + Sum(lens[|outs|..]) == total
        invariant next == pos + |Flat(outs)| && retval == |Flat(outs)|
        invariant forall s :: 0 <= s < |outs| && lens[s] > 0 ==> SegmentEnds(b, pos, lens, env, outs, s, error)
      {
        var count, out;
        ghost var done := Flat(outs);
        next, count, out, error := ReadInto(next, lens[|outs|], env(|outs|));
        FilledOn(outs, lens, out);
        ReadMore(b, pos, total, done, lens[|outs|], out);
        SegmentsEnd(b, pos, lens, env, outs, out, error);
        outs, retval := outs + [out], retval + |out|;
        if error != 0 {
          retval := if retval != 0 then retval else error;
          return;
        }
        if count > 0 { return; }
      }
      FilledAll(outs, lens);
    }

    /** One pass of the write loop: write_begin, the copy and write_end for `bytes` bytes of one
        page, and the step past what was copied. */
    method WritePage(pos: nat, bytes: nat, it: Iter, limit: nat) returns (copied: nat, rest: Iter)
      requires f.Valid() && it.Valid() && 0 < bytes <= it.count && OnePage(pos, bytes)
      modifies this
      ensures copied == Min(bytes, limit)
      ensures f.Valid() && f.Bytes() == Patch(old(f.Bytes()), pos, it.Source()[..copied], pos + bytes)
      ensures rest.Valid() && rest.count == it.count - copied && rest.Source() == it.Source()[copied..] && rest.Left() == it.Left()[copied..]
    {
      hide File.Bytes, Flat, Runs, Patch;
      var data := CopyFromUser(it, bytes, limit);
      ChunkBytes(f, pos, bytes, data);
      f := WriteChunk(f, pos, bytes, data);
      copied := |data|;
      rest := Advance(it, copied);
      SliceDrop(Flat(it.segs), it.off, it.count, copied);
      SliceDrop(Runs(it.segs), it.off, it.count, copied);
    }

    /** wjfs_perform_write.  `got` has what each pass copied, and stops short of the source only at
        the first attempt that fails.  The file becomes the old one with that much of the source at
        `pos`; if it stops early, what follows is zeroed up to `zeroTo`, and if nothing was copied
        the file may have grown to `pos`.  A complete write is exactly a splice, whatever faults and
        retries came before. */
    method PerformWrite(pos: nat, it: Iter, env: seq<Attempt>)
      returns (ret: int, written: nat, rest: Iter, ghost got: seq<nat>, ghost zeroTo: nat)
      requires f.Valid() && it.Valid() && it.count > 0
      requires forall k :: 0 <= k < |env| ==> env[k].BeginFails? ==> env[k].status < 0
      modifies this
      ensures f.Valid() && written + rest.count == it.count
      ensures rest.Valid() && rest.Source() == it.Source()[written..]
      ensures Copied(env, pos, it.Left(), got) && written == Total(got) && (got == [] <==> FailsAt(env, 0))
      ensures written < it.count ==> FailsAt(env, |got|) && (written == 0 ==> ret == WriteFailure(env[|got|]))
      ensures f.Bytes() == Written(old(f.Bytes()), pos, it.Source()[..written], got != [], zeroTo)
      ensures got != [] ==> ZeroedTo(pos + written, pos + it.count, Moved(got), zeroTo)
      ensures f.Bytes() == Splice(old(f.Bytes()), pos, it.Source()[..written]) <==> Unharmed(old(f.Bytes()), pos, written, got != [], zeroTo)
      ensures written == it.count ==> f.Bytes() == Splice(old(f.Bytes()), pos, it.Source())
      ensures if written > 0 then ret == written else ret < 0
    {
      hide File.Valid, File.Bytes, Flat, Runs, Written, Splice, Iter.Valid, Iter.Source, Iter.Left, OnePage, Chunk, PageEnd, ZeroedTo;
      hide Unharmed, Progress, Standing, Remains, Patch, FailsAt, Copied, AsksFor, Total, Moved, Emptied;
      var status, at := 0, pos;
      ghost var b, source, left := f.Bytes(), it.Source(), it.Left();
      written, rest, got, zeroTo := 0, it, [], 0;
      var bytes, k := Chunk(at, rest.count), 0;
      RemainsAll(it);
      StandingNone(b, env, pos, source, left);
      AsksFirst(pos, left, [], 0);
      while true
        invariant k == |got| && f.Valid() && at == pos + written && status == 0 && written == Total(got)
        invariant rest.Valid() && written + rest.count == it.count && Remains(it, rest, written)
        invariant 0 < bytes <= rest.count && OnePage(at, bytes) && bytes == AsksFor(pos, left, written, Emptied(got))
        invariant Standing(b, f.Bytes(), env, pos, source, left, got, zeroTo)
        decreases Max(0, |env| - k), rest.count
      {
        var attempt := if k < |env| then env[k] else Copies(bytes);
        if attempt.FaultIn? {
          status := EFAULT;
          break;
        }
        if attempt.BeginFails? {
          status := attempt.status;
          break;
        }
        k := k + 1;
        var copied;
        ghost var now, was := f.Bytes(), rest;
        copied, rest := WritePage(at, bytes, rest, attempt.limit);
        RemainsOn(it, was, written, rest, copied);
        StandingOn(b, now, env, pos, source, left, got, zeroTo, bytes, copied, was.Source()[..copied]);
        got, zeroTo := got + [copied], Max(zeroTo, at + bytes);
        if copied == 0 {
          CursorFacts(rest);
          SegmentLeft(rest);
          RemainsAre(it, rest, written);
          AsksAgain(pos, left, got, written, SingleSegCount(rest));
          bytes := Chunk(at, SingleSegCount(rest));
          continue;
        }
        at, written := at + copied, written + copied;
        if rest.count == 0 { break; }
        bytes := Chunk(at, rest.count);
        AsksFirst(pos, left, got, written);
      }
      StandingEnds(b, f.Bytes(), env, pos, source, left, got, zeroTo);
      RemainsAre(it, rest, written);
      ret := if written > 0 then written else status;
    }

    /** __wjfs_file_aio_write and wjfs_file_buffered_write: `count` is what the file limits leave
        of the segments.  The position moves by what was written, and not on an error. */
    method AioWrite(segs: seq<seq<Byte>>, pos: nat, count: nat, env: seq<Attempt>)
      returns (ret: int, next: nat, ghost got: seq<nat>, ghost zeroTo: nat)
      requires f.Valid() && count <= |Flat(segs)|
      requires forall k :: 0 <= k < |env| ==> env[k].BeginFails? ==> env[k].status < 0
      modifies this
      ensures f.Valid() && ret <= count && next == pos + Max(0, ret)
      ensures Copied(env, pos, Runs(segs)[..count], got) && Max(0, ret) == Total(got) && (got == [] <==> count == 0 || FailsAt(env, 0))
      ensures ret < count ==> FailsAt(env, |got|) && (ret < 0 ==> ret == WriteFailure(env[|got|]))
      ensures f.Bytes() == Written(old(f.Bytes()), pos, Flat(segs)[..Max(0, ret)], got != [], zeroTo)
      ensures got != [] ==> ZeroedTo(next, pos + count, Moved(got), zeroTo)
      ensures f.Bytes() == Splice(old(f.Bytes()), pos, Flat(segs)[..Max(0, ret)])
              <==> Unharmed(old(f.Bytes()), pos, Max(0, ret), got != [], zeroTo)
      ensures ret == count ==> f.Bytes() == Splice(old(f.Bytes()), pos, Flat(segs)[..count])
      ensures ret < 0 ==> (f.Bytes() == old(f.Bytes()) <==>
                           FailsAt(env, 0) || Unharmed(old(f.Bytes()), pos, 0, true, Min(PageEnd(pos), pos + count)))
      ensures ret == 0 ==> count == 0
    {
      hide File.Valid, File.Bytes, Flat, Runs, Written, Splice, Iter.Valid, Iter.Source, Iter.Left, ZeroedTo, FailsAt, Copied;
      next := pos;
      if count == 0 {
        Untouched(f.Bytes(), pos);
        NoPasses(env, pos, Runs(segs)[..count]);
        assert Flat(segs)[..0] == [];
        return 0, pos, [], 0;
      }
      var it := InitIter(segs, count);
      var written, rest;
      ret, written, rest, got, zeroTo := PerformWrite(pos, it, env);
      assert Flat(segs)[..count][..written] == Flat(segs)[..written];
      if ret >= 0 { next := pos + ret; } else { NothingWritten(old(f.Bytes()), pos, count, got, zeroTo); }
    }

    /** What a complete write put at `pos` is what a read at `pos` returns, however either side
        splits it into segments and wherever it falls on the pages. */
    method WriteThenRead(segs: seq<seq<Byte>>, pos: nat, lens: seq<nat>, faults: seq<Attempt>)
      returns (written: int, outs: seq<seq<Byte>>)
      requires f.Valid() && Sum(lens) == |Flat(segs)|
      requires forall k :: 0 <= k < |faults| ==> faults[k].BeginFails? ==> faults[k].status < 0
      modifies this
      ensures f.Valid() && |outs| <= |lens|
      ensures forall s :: 0 <= s < |outs| ==> |outs[s]| <= lens[s] && (s < |outs| - 1 ==> |outs[s]| == lens[s])
      ensures Flat(outs) == Readable(f.Bytes(), pos, Sum(lens))
      ensures written == |Flat(segs)| ==> f.Bytes() == Splice(old(f.Bytes()), pos, Flat(segs)) && Flat(outs) == Flat(segs)
      ensures written < |Flat(segs)| ==> exists k: nat :: FailsAt(faults, k)
    {
      hide File.Valid, File.Bytes, Flat, Written, Splice, Readable;
      var next, retval, error;
      ghost var got, zeroTo, b, data := [], 0, f.Bytes(), Flat(segs);
      assert data[..|data|] == data;
      written, next, got, zeroTo := AioWrite(segs, pos, |Flat(segs)|, faults);
      var quiet := _ => (_ => Serve(0));
      retval, next, outs, error := AioRead(pos, lens, quiet);
      ReadBack(b, pos, data);
    }
  }

  lemma StandsAt(pos: nat)
    ensures Stands(pos / PAGE, pos % PAGE, pos)
  {
    JoinPosition(pos);
  }

  lemma PageEndAt(index: nat, offset: nat, p: nat)
    requires Stands(index, offset, p)
    ensures PageEnd(p) - p == PAGE - offset
  {
    SplitPosition(index, offset);
  }

  lemma FirstTurn(size: nat, pos: nat)
    ensures TurnAt(size, pos, 0) == pos
  {
  }

  lemma NextTurn(size: nat, pos: nat, k: nat)
    requires TurnAt(size, pos, k) < size
    ensures TurnAt(size, pos, k + 1) == Min(PageEnd(TurnAt(size, pos, k)), size)
  {
    if k > 0 { SplitPosition(pos / PAGE + k, 0); }
  }

  lemma StandsFacts(index: nat, offset: nat, k: nat)
    requires Stands(index, offset, k)
    ensures offset < PAGE && index * PAGE + offset == k
  {
  }

  /** Having filled the segment or reached the end of the file, the output is all there is. */
  lemma ReadDone(b: seq<Byte>, pos: nat, total: nat, out: seq<Byte>)
    requires out <= Readable(b, pos, total)
    ensures |out| == total || pos + |out| >= |b| ==> out == Readable(b, pos, total)
  {
  }

  lemma ReadNone(b: seq<Byte>, pos: nat, total: nat)
    ensures [] <= Readable(b, pos, total) && Readable(b, pos, 0) == []
  {
  }

  /** Reading a segment of `n` bytes after `done`: what it delivers continues what is readable,
      and if it delivers all it can and stops short, that is the end of the file. */
  lemma ReadMore(b: seq<Byte>, pos: nat, total: nat, done: seq<Byte>, n: nat, out: seq<Byte>)
    requires done <= Readable(b, pos, total) && |done| + n <= total && out <= Readable(b, pos + |done|, n)
    ensures done + out <= Readable(b, pos, total)
    ensures out == Readable(b, pos + |done|, n) && (|out| < n || |done| + n == total) ==> done + out == Readable(b, pos, total)
  {
  }

  /** The first segments are filled. */
  ghost predicate Filled(outs: seq<seq<Byte>>, lens: seq<nat>) {
    |outs| <= |lens| && forall s :: 0 <= s < |outs| ==> |outs[s]| == lens[s]
  }

  lemma FilledNone(lens: seq<nat>)
    ensures Filled([], lens) && lens[0..] == lens
  {
  }

  lemma FilledOn(outs: seq<seq<Byte>>, lens: seq<nat>, out: seq<Byte>)
    requires Filled(outs, lens) && |outs| < |lens| && |out| <= lens[|outs|]
    ensures Flat(outs + [out]) == Flat(outs) + out && Sum(lens[|outs|..]) == lens[|outs|] + Sum(lens[|outs| + 1..])
    ensures |out| == lens[|outs|] ==> Filled(outs + [out], lens)
    ensures var os := outs + [out]; forall s :: 0 <= s < |os| ==> |os[s]| <= lens[s] && (s < |os| - 1 ==> |os[s]| == lens[s])
  {
    FlatSnoc(outs, out);
    assert lens[|outs|..][1..] == lens[|outs| + 1..];
  }

  /** Segment `s` ends as one read of its length at its place, with the error if it is the last one
      reached and with none before. */
  ghost predicate SegmentEnds(b: seq<Byte>, pos: nat, lens: seq<nat>, env: nat -> nat -> ReadEvent, outs: seq<seq<Byte>>, s: nat,
                              error: int)
    requires s < |outs| <= |lens|
  {
    Ends(b, pos + |Flat(outs[..s])|, lens[s], env(s), |outs[s]|, if s == |outs| - 1 then error else 0)
  }

  lemma SegmentsEnd(b: seq<Byte>, pos: nat, lens: seq<nat>, env: nat -> nat -> ReadEvent, outs: seq<seq<Byte>>, out: seq<Byte>,
                    error: int)
    requires |outs| < |lens| && forall s :: 0 <= s < |outs| && lens[s] > 0 ==> SegmentEnds(b, pos, lens, env, outs, s, 0)
    requires lens[|outs|] > 0 ==> Ends(b, pos + |Flat(outs)|, lens[|outs|], env(|outs|), |out|, error)
    ensures forall s :: 0 <= s <= |outs| && lens[s] > 0 ==> SegmentEnds(b, pos, lens, env, outs + [out], s, error)
  {
    hide Ends, Flat, SegmentEnds;
    forall s | 0 <= s <= |outs| && lens[s] > 0 ensures SegmentEnds(b, pos, lens, env, outs + [out], s, error) {
      if s < |outs| { SegmentStays(b, pos, lens, env, outs, out, s, error); } else { SegmentLast(b, pos, lens, env, outs, out, error); }
    }
  }

  lemma SegmentStays(b: seq<Byte>, pos: nat, lens: seq<nat>, env: nat -> nat -> ReadEvent, outs: seq<seq<Byte>>, out: seq<Byte>,
                     s: nat, error: int)
    requires s < |outs| < |lens| && SegmentEnds(b, pos, lens, env, outs, s, 0)
    ensures SegmentEnds(b, pos, lens, env, outs + [out], s, error)
  {
    hide Ends, Flat;
    var os := outs + [out];
    assert os[..s] == outs[..s] && os[s] == outs[s];
  }

  lemma SegmentLast(b: seq<Byte>, pos: nat, lens: seq<nat>, env: nat -> nat -> ReadEvent, outs: seq<seq<Byte>>, out: seq<Byte>,
                    error: int)
    requires |outs| < |lens| && Ends(b, pos + |Flat(outs)|, lens[|outs|], env(|outs|), |out|, error)
    ensures SegmentEnds(b, pos, lens, env, outs + [out], |outs|, error)
  {
    hide Ends, Flat;
    var os := outs + [out];
    assert os[..|outs|] == outs && os[|outs|] == out;
  }

  lemma FilledAll(outs: seq<seq<Byte>>, lens: seq<nat>)
    requires Filled(outs, lens) && |outs| == |lens|
    ensures Sum(lens[|outs|..]) == 0 && forall s :: 0 <= s < |outs| ==> |outs[s]| == lens[s]
    ensures outs != [] ==> |outs[|outs| - 1]| <= |Flat(outs)|
  {
    if outs != [] {
      FlatSnoc(outs[..|outs| - 1], outs[|outs| - 1]);
      assert outs[..|outs| - 1] + [outs[|outs| - 1]] == outs;
    }
  }

  lemma ReadHere(b: seq<Byte>, pos: nat, n: nat, data: seq<Byte>)
    requires |data| <= n && pos + |data| <= |b| && data == b[pos..pos + |data|]
    ensures data <= Readable(b, pos, n)
    ensures |data| == n || pos + |data| == |b| ==> data == Readable(b, pos, n)
  {
  }

  lemma ReadBack(b: seq<Byte>, pos: nat, data: seq<Byte>)
    ensures Readable(Splice(b, pos, data), pos, |data|) == data
  {
  }

  /** The splice promise fails on a short copy: with one byte copied of the two asked for, the
      second byte of the file is lost. */
  lemma ShortCopyLosesBytes()
    ensures var f := File(map[0 := [65, 66] + Zeros(PAGE - 2)], 2);
            && f.Valid() && f.Bytes() == [65, 66] && WriteChunk(f, 0, 2, [88]).Valid()
            && WriteChunk(f, 0, 2, [88]).Bytes() == [88, 0] != Splice(f.Bytes(), 0, [88])
  {
    var f := File(map[0 := [65, 66] + Zeros(PAGE - 2)], 2);
    assert f.ByteAt(0) == 65 && f.ByteAt(1) == 66;
    ChunkBytes(f, 0, 2, [88]);
  }

  /** A failed write can grow the file: asked for one byte at position 5000 of an empty file, the
      first copy faults at once and leaves a size of 5000, and the second attempt fails. */
  method FailedWriteGrows() returns (ret: int, size: nat)
    ensures ret == -14 && size == 5000
  {
    var inode := new Inode;
    inode.f := File(map[], 0);
    var next;
    ghost var got, zeroTo;
    var env := [Copies(0), FaultIn];
    assert Flat([[7]]) == [7] by { FlatOne([[7]]); }
    ret, next, got, zeroTo := inode.AioWrite([[7]], 5000, 1, env);
    OneFailure(env, 5000, Runs([[7]])[..1], got);
    size := inode.f.size;
  }

  /** Twenty bytes asked for, ten copied before a fault, and the second attempt fails: ten. */
  method InterruptedWrite() returns (ret: int)
    ensures ret == 10
  {
    var inode := new Inode;
    inode.f := File(map[], 0);
    var env := [Copies(10), FaultIn];
    var segs := [Zeros(20)];
    FlatOne(segs);
    var next;
    ghost var got, zeroTo;
    ret, next, got, zeroTo := inode.AioWrite(segs, 0, 20, env);
    OneFailure(env, 0, Runs(segs)[..20], got);
  }

  /** Twenty bytes asked for six bytes before the end of a page, an attempt that could copy them all,
      and a failure: six. */
  method StoppedAtPage() returns (ret: int)
    ensures ret == 6
  {
    var inode := new Inode;
    inode.f := File(map[], 0);
    var env := [Copies(20), FaultIn];
    var segs := [Zeros(20)];
    FlatOne(segs);
    var next;
    ghost var got, zeroTo;
    ret, next, got, zeroTo := inode.AioWrite(segs, 8186, 20, env);
    OneFailure(env, 8186, Runs(segs)[..20], got);
  }

  /** A single attempt that copies less than the source, and then a failure. */
  lemma OneFailure(env: seq<Attempt>, pos: nat, left: seq<nat>, got: seq<nat>)
    requires |env| == 2 && env[0].Copies? && env[1] == FaultIn && 0 < |left|
    requires Min(env[0].limit, PAGE - pos % PAGE) < |left|
    requires Copied(env, pos, left, got) && (Total(got) < |left| ==> FailsAt(env, |got|))
    ensures FailsAt(env, 1) && |got| == 1 && Total(got) == Min(env[0].limit, PAGE - pos % PAGE) && !FailsAt(env, 0)
  {
    hide Copied, Total, Emptied;
    TotalNone();
    if got != [] {
      CopiedFirst(env, pos, left, got);
      if |got| > 1 { CopiedPrefix(env, pos, left, got, 1); }
      TotalOne(got);
    }
  }

  lemma SliceDrop<T>(s: seq<T>, at: nat, n: nat, k: nat)
    requires at + n <= |s| && k <= n
    ensures s[at..at + n][k..] == s[at + k..at + n]
  {
  }

  lemma CursorFacts(it: Iter)
    requires it.Valid()
    ensures it.count > 0 ==> it.segs != [] && it.off < |it.segs[0]|
  {
  }

  lemma LimitsOn(env: seq<Attempt>, k: nat)
    requires k < |env|
    ensures Limits(env[..k + 1]) == Limits(env[..k]) + if env[k].Copies? then env[k].limit else 0
  {
    assert env[..k + 1][..k] == env[..k];
  }

  lemma TotalNone()
    ensures Total([]) == 0 && !Emptied([]) && !Moved([])
  {
  }

  lemma TotalOn(got: seq<nat>, n: nat)
    ensures Total(got + [n]) == Total(got) + n && (Emptied(got + [n]) <==> n == 0) && (Moved(got + [n]) <==> n > 0)
  {
    assert (got + [n])[..|got|] == got;
  }

  lemma NoPasses(env: seq<Attempt>, pos: nat, left: seq<nat>)
    ensures Copied(env, pos, left, []) && Total([]) == 0
  {
  }

  lemma CopiedOn(env: seq<Attempt>, pos: nat, left: seq<nat>, got: seq<nat>, copied: nat)
    requires Copied(env, pos, left, got) && Total(got) < |left| && (|got| < |env| ==> env[|got|].Copies?)
    requires var asks := AsksFor(pos, left, Total(got), Emptied(got));
             copied == if |got| < |env| then Min(asks, env[|got|].limit) else asks
    ensures Copied(env, pos, left, got + [copied]) && Total(got + [copied]) == Total(got) + copied
    ensures (Emptied(got + [copied]) <==> copied == 0) && (Moved(got + [copied]) <==> copied > 0)
  {
    hide Total, Emptied, Moved, AsksFor;
    var g := got + [copied];
    TotalOn(got, copied);
    forall j | 0 <= j < |g| ensures CopiedIn(env, pos, left, g, j) {
      assert g[..j] == got[..j];
      if j < |got| { assert CopiedIn(env, pos, left, got, j); } else { assert got[..j] == got; }
    }
  }

  lemma FailsNow(env: seq<Attempt>, pos: nat, left: seq<nat>, got: seq<nat>)
    requires Copied(env, pos, left, got) && |got| < |env| && !env[|got|].Copies?
    ensures FailsAt(env, |got|)
  {
    hide Total, Emptied, AsksFor;
    forall j | 0 <= j < |got| ensures env[j].Copies? { assert CopiedIn(env, pos, left, got, j); }
  }

  lemma FirstPass(env: seq<Attempt>, pos: nat, left: seq<nat>, got: seq<nat>)
    requires Copied(env, pos, left, got) && left != [] && (Total(got) < |left| ==> FailsAt(env, |got|))
    ensures got == [] <==> FailsAt(env, 0)
  {
    hide Total, Emptied, AsksFor;
    TotalNone();
    if got != [] { assert CopiedIn(env, pos, left, got, 0); }
  }

  lemma CopiedFirst(env: seq<Attempt>, pos: nat, left: seq<nat>, got: seq<nat>)
    requires Copied(env, pos, left, got) && got != []
    ensures left != [] && (env != [] ==> env[0].Copies?)
    ensures got[0] == if env != [] then Min(AsksFor(pos, left, 0, false), env[0].limit) else AsksFor(pos, left, 0, false)
  {
    assert CopiedIn(env, pos, left, got, 0);
    assert got[..0] == [];
  }

  lemma CopiedPrefix(env: seq<Attempt>, pos: nat, left: seq<nat>, got: seq<nat>, j: nat)
    requires Copied(env, pos, left, got) && j < |got|
    ensures CopiedIn(env, pos, left, got, j)
  {
  }

  lemma TotalOne(got: seq<nat>)
    requires |got| == 1
    ensures Total(got) == got[0]
  {
    assert got[..0] == [];
  }

  /** The attempts, the position and the segments determine what each pass copies. */
  lemma {:induction false} CopiedOnce(env: seq<Attempt>, pos: nat, left: seq<nat>, a: seq<nat>, b: seq<nat>, k: nat)
    requires Copied(env, pos, left, a) && Copied(env, pos, left, b) && k <= |a| && k <= |b|
    ensures a[..k] == b[..k]
    decreases k
  {
    hide Total, Emptied, AsksFor;
    if k > 0 {
      CopiedOnce(env, pos, left, a, b, k - 1);
      CopiedPrefix(env, pos, left, a, k - 1);
      CopiedPrefix(env, pos, left, b, k - 1);
      assert a[..k] == a[..k - 1] + [a[k - 1]] && b[..k] == b[..k - 1] + [b[k - 1]];
    }
  }

  /** Attempt `j` allows no more than its pass asks for. */
  ghost predicate Modest(env: seq<Attempt>, pos: nat, left: seq<nat>, got: seq<nat>, j: nat)
    requires j < |got| && j < |env|
  {
    && env[j].Copies? && Total(got[..j]) < |left|
    && env[j].limit <= AsksFor(pos, left, Total(got[..j]), Emptied(got[..j]))
  }

  /** No more is copied than the attempts allow, and exactly that if none allows more than is asked
      for. */
  lemma {:induction false} WithinLimits(env: seq<Attempt>, pos: nat, left: seq<nat>, got: seq<nat>, k: nat)
    requires Copied(env, pos, left, got) && k <= |got| && k <= |env|
    ensures Total(got[..k]) <= Limits(env[..k])
    ensures (forall j :: 0 <= j < k ==> Modest(env, pos, left, got, j)) ==> Total(got[..k]) == Limits(env[..k])
    decreases k
  {
    hide Total, Emptied, AsksFor, Limits, Copied;
    if k == 0 {
      TotalNone();
      LimitsNone(env);
      assert got[..0] == [];
    } else {
      WithinLimits(env, pos, left, got, k - 1);
      if forall j :: 0 <= j < k ==> Modest(env, pos, left, got, j) { assert Modest(env, pos, left, got, k - 1); }
      CopiedPrefix(env, pos, left, got, k - 1);
      TotalOn(got[..k - 1], got[k - 1]);
      assert got[..k] == got[..k - 1] + [got[k - 1]];
      LimitsOn(env, k - 1);
    }
  }

  lemma LimitsNone(env: seq<Attempt>)
    ensures Limits(env[..0]) == 0
  {
  }

  /** Where the write loop stands: the file is `now` after the passes `got`. */
  ghost predicate Progress(b: seq<Byte>, now: seq<Byte>, pos: nat, source: seq<Byte>, got: seq<nat>, zeroTo: nat) {
    && Total(got) <= |source| && now == Written(b, pos, source[..Total(got)], got != [], zeroTo)
    && if got != [] then ZeroedTo(pos + Total(got), pos + |source|, Moved(got), zeroTo) else zeroTo == 0
  }

  lemma StandingNone(b: seq<Byte>, env: seq<Attempt>, pos: nat, source: seq<Byte>, left: seq<nat>)
    ensures Standing(b, b, env, pos, source, left, [], 0) && Total([]) == 0
  {
  }

  lemma ProgressIs(b: seq<Byte>, now: seq<Byte>, pos: nat, source: seq<Byte>, got: seq<nat>, zeroTo: nat)
    requires Progress(b, now, pos, source, got, zeroTo)
    ensures Total(got) <= |source| && now == Written(b, pos, source[..Total(got)], got != [], zeroTo)
    ensures if got != [] then ZeroedTo(pos + Total(got), pos + |source|, Moved(got), zeroTo) else Total(got) == 0
  {
  }

  lemma ProgressOn(b: seq<Byte>, pos: nat, source: seq<Byte>, left: seq<nat>, got: seq<nat>, zeroTo: nat, bytes: nat, copied: nat)
    requires var written := Total(got);
             && written + bytes <= |source| == |left| && written < |left| && copied <= bytes && OnePage(pos + written, bytes)
             && Progress(b, Written(b, pos, source[..written], got != [], zeroTo), pos, source, got, zeroTo)
             && bytes == AsksFor(pos, left, written, Emptied(got))
    ensures var written, z := Total(got), Max(zeroTo, pos + Total(got) + bytes);
            && source[written..][copied..] == source[written + copied..]
            && Progress(b, Patch(Written(b, pos, source[..written], got != [], zeroTo), pos + written, source[written..][..copied],
                                 pos + written + bytes),
                        pos, source, got + [copied], z)
  {
    hide Patch, Written, ZeroedTo, PageEnd, OnePage, Total, Moved, Emptied, AsksFor;
    var written := Total(got);
    TotalOn(got, copied);
    EitherEmpty(got);
    if !Emptied(got) { AsksEnd(pos, left, written); } else { EmptiedZero(pos + written, pos + |source|, got, zeroTo); }
    WroteOn(b, pos, source, written, copied, got != [], zeroTo, pos + written + bytes);
    ZeroedOn(pos + written, bytes, copied, pos + |source|, got != [], Moved(got), zeroTo);
  }

  ghost predicate Standing(b: seq<Byte>, now: seq<Byte>, env: seq<Attempt>, pos: nat, source: seq<Byte>, left: seq<nat>,
                           got: seq<nat>, zeroTo: nat) {
    Progress(b, now, pos, source, got, zeroTo) && Copied(env, pos, left, got)
  }

  /** One more pass. */
  lemma StandingOn(b: seq<Byte>, now: seq<Byte>, env: seq<Attempt>, pos: nat, source: seq<Byte>, left: seq<nat>,
                   got: seq<nat>, zeroTo: nat, bytes: nat, copied: nat, piece: seq<Byte>)
    requires Standing(b, now, env, pos, source, left, got, zeroTo)
    requires Total(got) + bytes <= |source| == |left| && Total(got) < |left| && OnePage(pos + Total(got), bytes)
    requires bytes == AsksFor(pos, left, Total(got), Emptied(got)) && (|got| < |env| ==> env[|got|].Copies?)
    requires copied == if |got| < |env| then Min(bytes, env[|got|].limit) else bytes
    requires piece == source[Total(got)..][..copied]
    ensures var written, g := Total(got), got + [copied];
            && Standing(b, Patch(now, pos + written, piece, pos + written + bytes), env, pos, source, left,
                        g, Max(zeroTo, pos + written + bytes))
            && Total(g) == written + copied && (Emptied(g) <==> copied == 0) && (Moved(g) <==> copied > 0)
  {
    hide Progress, Copied, AsksFor, Total, Moved, Emptied, Patch, Written, OnePage, ZeroedTo, PageEnd;
    ProgressIs(b, now, pos, source, got, zeroTo);
    ProgressOn(b, pos, source, left, got, zeroTo, bytes, copied);
    CopiedOn(env, pos, left, got, copied);
  }

  /** `rest` is `it` past its first `n` bytes. */
  ghost predicate Remains(it: Iter, rest: Iter, n: nat) {
    && it.Valid() && rest.Valid() && n + rest.count == it.count
    && rest.Source() == it.Source()[n..] && rest.Left() == it.Left()[n..]
  }

  lemma RemainsAll(it: Iter)
    requires it.Valid()
    ensures Remains(it, it, 0)
  {
  }

  lemma RemainsAre(it: Iter, rest: Iter, n: nat)
    requires Remains(it, rest, n)
    ensures it.Valid() && rest.Valid() && rest.Source() == it.Source()[n..] && rest.Left() == it.Left()[n..]
    ensures rest.count > 0 ==> rest.Left()[0] == it.Left()[n]
  {
  }

  lemma RemainsOn(it: Iter, rest: Iter, n: nat, r: Iter, copied: nat)
    requires Remains(it, rest, n) && r.Valid() && copied <= rest.count && r.count == rest.count - copied
    requires r.Source() == rest.Source()[copied..] && r.Left() == rest.Left()[copied..]
    ensures Remains(it, r, n + copied) && rest.Source()[..copied] == it.Source()[n..][..copied]
  {
    hide Iter.Valid, Iter.Source, Iter.Left;
    DropDrop(it.Source(), n, copied);
    DropDrop(it.Left(), n, copied);
  }

  lemma DropDrop<T>(s: seq<T>, i: nat, j: nat)
    requires i + j <= |s|
    ensures s[i..][j..] == s[i + j..]
  {
  }

  /** The loop ends when all is written or at an attempt that fails. */
  lemma StandingEnds(b: seq<Byte>, now: seq<Byte>, env: seq<Attempt>, pos: nat, source: seq<Byte>, left: seq<nat>,
                     got: seq<nat>, zeroTo: nat)
    requires Standing(b, now, env, pos, source, left, got, zeroTo) && |source| == |left| > 0
    requires Total(got) == |source| || (|got| < |env| && !env[|got|].Copies?)
    ensures Copied(env, pos, left, got) && Total(got) <= |source| && (got == [] <==> FailsAt(env, 0))
    ensures Total(got) < |source| ==> FailsAt(env, |got|)
    ensures now == Written(b, pos, source[..Total(got)], got != [], zeroTo)
    ensures got != [] ==> ZeroedTo(pos + Total(got), pos + |source|, Moved(got), zeroTo)
    ensures now == Splice(b, pos, source[..Total(got)]) <==> Unharmed(b, pos, Total(got), got != [], zeroTo)
    ensures Total(got) == |source| ==> now == Splice(b, pos, source)
  {
    hide Progress, Copied, AsksFor, Total, Moved, Emptied, Patch, Written, Splice, ZeroedTo, Unharmed;
    ProgressIs(b, now, pos, source, got, zeroTo);
    if Total(got) < |source| { FailsNow(env, pos, left, got); }
    WrittenIsSplice(b, pos, source[..Total(got)], got != [], zeroTo);
    FirstPass(env, pos, left, got);
    if Total(got) == |source| {
      FullUnharmed(b, pos, got, zeroTo);
      assert source[..|source|] == source;
    }
  }

  lemma EitherEmpty(got: seq<nat>)
    ensures (got == [] ==> Total(got) == 0 && !Emptied(got) && !Moved(got)) && (got != [] ==> (Emptied(got) <==> !Moved(got)))
  {
  }

  lemma EmptiedZero(at: nat, end: nat, got: seq<nat>, zeroTo: nat)
    requires Emptied(got) && ZeroedTo(at, end, Moved(got), zeroTo)
    ensures zeroTo == Min(PageEnd(at), end)
  {
  }

  lemma AsksEnd(pos: nat, left: seq<nat>, done: nat)
    requires done < |left|
    ensures pos + done + AsksFor(pos, left, done, false) == Min(PageEnd(pos + done), pos + |left|)
  {
    ChunkEnd(pos + done, |left| - done);
  }

  /** The first request at a position, and the one after an empty copy. */
  lemma AsksFirst(pos: nat, left: seq<nat>, got: seq<nat>, done: nat)
    requires done < |left| && (got == [] || Moved(got))
    ensures Chunk(pos + done, |left| - done) == AsksFor(pos, left, done, Emptied(got))
  {
  }

  lemma AsksAgain(pos: nat, left: seq<nat>, got: seq<nat>, done: nat, n: nat)
    requires done < |left| && Emptied(got) && n == Min(|left| - done, left[done])
    ensures Chunk(pos + done, n) == AsksFor(pos, left, done, Emptied(got))
  {
  }

  lemma ChunkEnd(at: nat, n: nat)
    ensures at + Chunk(at, n) == Min(PageEnd(at), at + n)
  {
  }

  /** A pass zeroes at most to the end of its page; what a full copy leaves is not zeroed. */
  lemma ZeroedOn(at: nat, bytes: nat, copied: nat, end: nat, tried: bool, moved: bool, zeroTo: nat)
    requires OnePage(at, bytes) && at + bytes <= end && copied <= bytes
    requires if tried then ZeroedTo(at, end, moved, zeroTo) else zeroTo == 0
    requires at + bytes == Min(PageEnd(at), end) || (tried && zeroTo == Min(PageEnd(at), end))
    ensures Max(zeroTo, at + bytes) == Min(PageEnd(at), end) && ZeroedTo(at + copied, end, copied > 0, Max(zeroTo, at + bytes))
  {
    JoinPosition(at);
    if at + copied < PageEnd(at) { SplitPosition(at / PAGE, at % PAGE + copied); }
  }

  lemma FullUnharmed(b: seq<Byte>, pos: nat, got: seq<nat>, zeroTo: nat)
    requires got != [] ==> ZeroedTo(pos + Total(got), pos + Total(got), Moved(got), zeroTo)
    requires Total(got) > 0
    ensures Unharmed(b, pos, Total(got), got != [], zeroTo)
  {
  }

  lemma WrittenIsSplice(b: seq<Byte>, pos: nat, data: seq<Byte>, tried: bool, zeroTo: nat)
    requires !tried ==> data == []
    ensures Written(b, pos, data, tried, zeroTo) == Splice(b, pos, data) <==> Unharmed(b, pos, |data|, tried, zeroTo)
  {
    hide Patch, Splice;
    PatchIsSplice(b, pos, data, zeroTo);
    SpliceNothing(b, pos);
  }

  lemma NothingWritten(b: seq<Byte>, pos: nat, count: nat, got: seq<nat>, zeroTo: nat)
    requires Total(got) == 0 && (got != [] ==> ZeroedTo(pos, pos + count, Moved(got), zeroTo))
    ensures Splice(b, pos, []) == b && (got != [] ==> zeroTo == Min(PageEnd(pos), pos + count))
    ensures got == [] ==> Unharmed(b, pos, 0, false, zeroTo)
  {
  }

  lemma SpliceNothing(b: seq<Byte>, pos: nat)
    ensures Splice(b, pos, []) == b
  {
  }

  /** A pass adds its bytes to what was written. */
  lemma WroteOn(b: seq<Byte>, pos: nat, source: seq<Byte>, written: nat, copied: nat, tried: bool, y: nat, z: nat)
    requires written + copied <= |source| && (!tried ==> written == 0 && y == 0)
    ensures source[written..][copied..] == source[written + copied..]
    ensures Patch(Written(b, pos, source[..written], tried, y), pos + written, source[written..][..copied], z)
            == Written(b, pos, source[..written + copied], true, Max(y, z))
  {
    hide Patch;
    assert source[..written] + source[written..][..copied] == source[..written + copied];
    PatchPatch(b, pos, source[..written], y, source[written..][..copied], z);
    assert !tried ==> source[written..][..copied] == source[..written + copied];
  }

  lemma Untouched(b: seq<Byte>, pos: nat)
    ensures Written(b, pos, [], false, 0) == b
  {
  }
}
