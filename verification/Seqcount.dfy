/**
 The lock-free reader of the two-word file size against writers that are serialized among
 themselves, one memory access per step, under sequential consistency.
 */
module Seqcount {

  /** The sequence number is a 32-bit unsigned. */
  const WRAP: nat := 0x1_0000_0000

  function Wrapped(c: nat): nat { c % WRAP }

  predicate Even(c: nat) { c % 2 == 0 }

  datatype Size = Size(high: nat, low: nat)

  datatype Word = Unread | Word(value: nat)

  /** A writer between its two increments, with the words it has still to store. */
  datatype Writer = Idle | Storing(size: Size, lowDone: bool, highDone: bool)

  /** A reader before its first even sequence number, between that and the check, or done. */
  datatype Reader = Begin | Reading(start: nat, low: Word, high: Word) | Returned(size: Size)

  /** `sequence`, `low` and `high` are the memory.  `count` counts increments without wrapping,
      `begun` is its value when the reader began, and `sizes` are the sizes written whole. */
  datatype State = State(
    sequence: nat, low: nat, high: nat, writer: Writer, reader: Reader,
    count: nat, begun: nat, sizes: seq<Size>)

  datatype Action = WriteBegin(size: Size) | StoreLow | StoreHigh | WriteEnd | ReadSequence | LoadLow | LoadHigh | Check

  function Init(size: Size): State {
    State(0, size.low, size.high, Idle, Begin, 0, 0, [size])
  }

  /** One step of a writer or of the reader; a step that is not enabled changes nothing. */
  function Step(s: State, a: Action): State {
    match a
    case WriteBegin(size) =>
      if s.writer.Idle? then s.(sequence := Wrapped(s.sequence + 1), count := s.count + 1, writer := Storing(size, false, false)) else s
    case StoreLow =>
      if s.writer.Storing? then s.(low := s.writer.size.low, writer := s.writer.(lowDone := true)) else s
    case StoreHigh =>
      if s.writer.Storing? then s.(high := s.writer.size.high, writer := s.writer.(highDone := true)) else s
    case WriteEnd =>
      if s.writer.Storing? && s.writer.lowDone && s.writer.highDone
      then s.(sequence := Wrapped(s.sequence + 1), count := s.count + 1, writer := Idle, sizes := s.sizes + [s.writer.size])
      else s
    case ReadSequence =>
      if !s.reader.Reading? && Even(s.sequence)
      then s.(reader := Reading(s.sequence, Unread, Unread), begun := s.count) else s
    case LoadLow => if s.reader.Reading? then s.(reader := s.reader.(low := Word(s.low))) else s
    case LoadHigh => if s.reader.Reading? then s.(reader := s.reader.(high := Word(s.high))) else s
    case Check =>
      if s.reader.Reading? && s.reader.low.Word? && s.reader.high.Word?
      then s.(reader := if s.sequence != s.reader.start then Begin else Returned(Size(s.reader.high.value, s.reader.low.value)))
      else s
  }

  /** What each access does to the memory, whatever the other side is doing: a writer counts, stores
      its words in any order and counts again, and a reader that found an even count loads the words as
      they are and returns them if the count is still the same. */
  lemma EachAccess(s: State, size: Size)
    ensures s.writer.Idle? ==>
              Step(s, WriteBegin(size)) == s.(sequence := (s.sequence + 1) % 4294967296, count := s.count + 1, writer := Storing(size, false, false))
    ensures s.writer.Storing? ==>
              && Step(s, StoreLow) == s.(low := s.writer.size.low, writer := s.writer.(lowDone := true))
              && Step(s, StoreHigh) == s.(high := s.writer.size.high, writer := s.writer.(highDone := true))
    ensures s.writer.Storing? && s.writer.lowDone && s.writer.highDone ==>
              var t := Step(s, WriteEnd);
              t.sequence == (s.sequence + 1) % 4294967296 && t.writer.Idle? && t.low == s.low && t.high == s.high && t.reader == s.reader
    ensures !s.reader.Reading? && s.sequence % 2 == 0 ==> Step(s, ReadSequence).reader == Reading(s.sequence, Unread, Unread)
    ensures s.reader.Reading? ==>
              && Step(s, LoadLow).reader == s.reader.(low := Word(s.low)) && Step(s, LoadHigh).reader == s.reader.(high := Word(s.high))
    ensures s.reader.Reading? && s.reader.low.Word? && s.reader.high.Word? ==>
              Step(s, Check).reader
              == if s.sequence == s.reader.start then Returned(Size(s.reader.high.value, s.reader.low.value)) else Begin
  {
  }

  function Run(s: State, actions: seq<Action>): State
    decreases |actions|
  {
    if actions == [] then s else Run(Step(s, actions[0]), actions[1..])
  }

  /** The size the file has: the last one written whole. */
  function Current(s: State): Size
    requires s.sizes != []
  {
    s.sizes[|s.sizes| - 1]
  }

  // ---------------------------------------------------------------- safety

  ghost predicate Inv(s: State) {
    && s.sizes != [] && s.sequence == Wrapped(s.count) && s.begun <= s.count
    && (s.writer.Idle? <==> Even(s.count))
    && (s.writer.Idle? ==> Size(s.high, s.low) == Current(s))
    && (s.writer.Storing? ==> (s.writer.lowDone ==> s.low == s.writer.size.low) && (s.writer.highDone ==> s.high == s.writer.size.high))
    && (s.reader.Reading? ==>
      && s.reader.start == Wrapped(s.begun) && Even(s.begun)
      && (s.begun == s.count && s.reader.low.Word? ==> s.reader.low.value == Current(s).low)
      && (s.begun == s.count && s.reader.high.Word? ==> s.reader.high.value == Current(s).high))
  }

  lemma Increment(c: nat)
    ensures Wrapped(Wrapped(c) + 1) == Wrapped(c + 1) && (Even(Wrapped(c)) <==> Even(c)) && (Even(c + 1) <==> !Even(c))
  {
  }

  lemma StepInv(s: State, a: Action)
    requires Inv(s)
    ensures Inv(Step(s, a))
  {
    hide Wrapped, Even;
    match a
    case WriteBegin(_) => Increment(s.count);
    case WriteEnd => Increment(s.count);
    case ReadSequence => Increment(s.count);
    case _ =>
  }

  lemma {:induction false} RunInv(s: State, actions: seq<Action>)
    requires Inv(s)
    ensures Inv(Run(s, actions))
    decreases |actions|
  {
    if actions != [] {
      StepInv(s, actions[0]);
      RunInv(Step(s, actions[0]), actions[1..]);
    }
  }

  /** In every interleaving, a size the reader accepts is the size of the file at that moment, with
      no writer under way, unless the counter ran all the way round while it was reading. */
  lemma AcceptedIsCurrent(size: Size, actions: seq<Action>)
    ensures var s := Run(Init(size), actions);
            Step(s, Check).reader.Returned? && s.reader.Reading? && s.count - s.begun < WRAP ==>
              && s.sizes != [] && Step(s, Check).reader.size == Current(s) && s.writer.Idle?
              && Size(s.high, s.low) == Current(s)
  {
    var s := Run(Init(size), actions);
    RunInv(Init(size), actions);
    if s.reader.Reading? && s.count - s.begun < WRAP && s.sequence == s.reader.start {
      SameModulo(s.begun, s.count);
    }
  }

  lemma SameModulo(a: nat, b: nat)
    requires a <= b < a + WRAP && Wrapped(a) == Wrapped(b)
    ensures a == b
  {
  }

  /** Sizes are only ever written whole: each is the first one or one a writer began with. */
  lemma {:induction false} WrittenWhole(s: State, actions: seq<Action>, size: Size)
    requires size in Run(s, actions).sizes
    ensures size in s.sizes || (s.writer.Storing? && s.writer.size == size) || WriteBegin(size) in actions
    decreases |actions|
  {
    if actions != [] { WrittenWhole(Step(s, actions[0]), actions[1..], size); }
  }

  /** Left alone, the reader is done after one round. */
  lemma ReaderAlone(s: State)
    requires Inv(s) && s.reader.Begin? && s.writer.Idle?
    ensures Run(s, [ReadSequence, LoadLow, LoadHigh, Check]).reader == Returned(Current(s))
  {
    Increment(s.count);
    assert Run(s, [ReadSequence, LoadLow, LoadHigh, Check]) == Run(Step(s, ReadSequence), [LoadLow, LoadHigh, Check]);
    assert Run(Step(s, ReadSequence), [LoadLow, LoadHigh, Check]) == Run(Step(Step(s, ReadSequence), LoadLow), [LoadHigh, Check]);
  }

  // ---------------------------------------------------------------- the bound is tight

  /** `n` complete writes of one size. */
  function Writes(size: Size, n: nat): seq<Action> {
    if n == 0 then [] else [WriteBegin(size), StoreLow, StoreHigh, WriteEnd] + Writes(size, n - 1)
  }

  lemma {:induction false} RunAppend(s: State, a: seq<Action>, b: seq<Action>)
    ensures Run(s, a + b) == Run(Run(s, a), b)
    decreases |a|
  {
    if a == [] {
      assert a + b == b;
    } else {
      assert (a + b)[1..] == a[1..] + b;
      RunAppend(Step(s, a[0]), a[1..], b);
    }
  }

  lemma OneWrite(s: State, size: Size)
    requires s.writer.Idle? && s.sequence < WRAP
    ensures var r := Run(s, [WriteBegin(size), StoreLow, StoreHigh, WriteEnd]);
            && r.writer.Idle? && r.sequence == (s.sequence + 2) % WRAP && r.reader == s.reader
            && r.high == size.high && r.low == size.low && r.count == s.count + 2 && r.begun == s.begun
  {
    var a := Step(s, WriteBegin(size));
    assert Run(s, [WriteBegin(size), StoreLow, StoreHigh, WriteEnd]) == Run(a, [StoreLow, StoreHigh, WriteEnd]);
    assert Run(a, [StoreLow, StoreHigh, WriteEnd]) == Run(Step(a, StoreLow), [StoreHigh, WriteEnd]);
  }

  lemma {:induction false} ManyWrites(s: State, size: Size, n: nat)
    requires s.writer.Idle? && s.sequence < WRAP
    ensures var r := Run(s, Writes(size, n));
            && r.writer.Idle? && r.sequence == (s.sequence + 2 * n) % WRAP && r.reader == s.reader
            && (n > 0 ==> r.high == size.high && r.low == size.low) && r.count == s.count + 2 * n && r.begun == s.begun
    decreases n
  {
    hide Run;
    if n > 0 {
      var one := [WriteBegin(size), StoreLow, StoreHigh, WriteEnd];
      RunAppend(s, one, Writes(size, n - 1));
      OneWrite(s, size);
      ManyWrites(Run(s, one), size, n - 1);
      RunNone(Run(s, one));
    } else {
      RunNone(s);
    }
  }

  /** With 2^31 writes between the two loads the counter comes round, and the reader accepts a mix
      of two sizes that no writer wrote. */
  lemma TornAfterWrap(a: Size, b: Size)
    ensures var torn := [ReadSequence, LoadLow] + Writes(b, WRAP / 2) + [LoadHigh, Check];
            Run(Init(a), torn).reader == Returned(Size(b.high, a.low))
  {
    hide Run, Writes;
    var s0 := Init(a);
    var s1 := Step(Step(s0, ReadSequence), LoadLow);
    TwoSteps(s0, ReadSequence, LoadLow);
    ManyWrites(s1, b, WRAP / 2);
    var s2 := Run(s1, Writes(b, WRAP / 2));
    RunAppend(s0, [ReadSequence, LoadLow], Writes(b, WRAP / 2));
    RunAppend(s0, [ReadSequence, LoadLow] + Writes(b, WRAP / 2), [LoadHigh, Check]);
    TwoSteps(s2, LoadHigh, Check);
  }

  lemma RunNone(s: State)
    ensures Run(s, []) == s
  {
  }

  lemma TwoSteps(s: State, a: Action, b: Action)
    ensures Run(s, [a, b]) == Step(Step(s, a), b)
  {
    assert Run(s, [a, b]) == Run(Step(s, a), [b]);
    assert Run(Step(s, a), [b]) == Run(Step(Step(s, a), b), []);
  }
}
