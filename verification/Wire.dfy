/**
 The text protocol between the two peers: what the client functions print, and what the
 server's tokenizers make of it.
 */
module Wire {
  import opened Decimal

  datatype Option<+T> = None | Some(value: T)

  predicate IsBreak(c: char) { c == 13 as char || c == 10 as char }

  predicate IsDelim(c: char) { c == ' ' || IsBreak(c) }

  predicate DelimFree(s: string) { forall i :: 0 <= i < |s| ==> !IsDelim(s[i]) }

  // ---------------------------------------------------------------- splitting

  /** The length of the leading delimiter-free part. */
  function TokenLen(s: string): (n: nat)
    ensures n <= |s| && DelimFree(s[..n]) && (n < |s| ==> IsDelim(s[n]))
  {
    if s == [] || IsDelim(s[0]) then 0
    else
      var n := TokenLen(s[1..]);
      assert forall i :: 0 <= i < n + 1 ==> s[i] == if i == 0 then s[0] else s[1..][..n][i - 1];
      n + 1
  }

  /** The pieces between delimiters; an empty last piece is dropped. */
  function Split(s: string): (ts: seq<string>)
    ensures forall t :: t in ts ==> DelimFree(t)
    ensures s != [] ==> ts != []
    decreases |s|
  {
    if s == [] then [] else [s[..TokenLen(s)]] + Split(After(s))
  }

  /** What follows the first piece and its delimiter. */
  function After(s: string): (r: string)
    ensures s != [] ==> |r| < |s|
  {
    if TokenLen(s) < |s| then s[TokenLen(s) + 1..] else []
  }

  function Join(ts: seq<string>): string
    requires ts != []
  {
    if |ts| == 1 then ts[0] else ts[0] + " " + Join(ts[1..])
  }

  lemma TokenLenIs(t: string, r: string)
    requires DelimFree(t) && (r != [] ==> IsDelim(r[0]))
    ensures TokenLen(t + r) == |t|
  {
    hide TokenLen;
    var s := t + r;
    assert forall i :: 0 <= i < |t| ==> s[i] == t[i];
    assert r != [] ==> s[|t|] == r[0];
    assert forall i :: 0 <= i < TokenLen(s) ==> s[..TokenLen(s)][i] == s[i];
  }

  lemma SplitFirst(t: string, r: string)
    requires DelimFree(t)
    ensures Split(t + " " + r) == [t] + Split(r)
  {
    var s := t + " " + r;
    assert s == t + (" " + r);
    TokenLenIs(t, " " + r);
    assert s[..|t|] == t && After(s) == r;
  }

  /** A space, a carriage return or a line feed ends a piece, and nothing else does. */
  lemma SplitAtFirst(t: string, c: char, r: string)
    requires forall i :: 0 <= i < |t| ==> t[i] != ' ' && t[i] != '\r' && t[i] != '\n'
    requires c == ' ' || c == '\r' || c == '\n'
    ensures Split(t + [c] + r) == [t] + Split(r)
  {
    var s := t + [c] + r;
    assert s == t + ([c] + r);
    TokenLenIs(t, [c] + r);
    assert s[..|t|] == t && After(s) == r;
  }

  /** Joining delimiter-free tokens and splitting again gives the tokens back, unless the last
      one is empty. */
  lemma {:induction false} SplitJoin(ts: seq<string>)
    requires ts != [] && (forall t :: t in ts ==> DelimFree(t)) && ts[|ts| - 1] != []
    ensures Split(Join(ts)) == ts
  {
    if |ts| == 1 {
      TokenLenIs(ts[0], []);
      assert ts[0] + [] == ts[0] && ts[0][..|ts[0]|] == ts[0];
    } else {
      SplitJoin(ts[1..]);
      SplitFirst(ts[0], Join(ts[1..]));
    }
  }

  const ROWS: nat := 6
  const ROW_SIZE: nat := 20

  /** The input stays within the server's table of rows, terminators included. */
  predicate Fits(buf: string) {
    |Split(buf)| <= ROWS && forall t :: t in Split(buf) ==> |t| < ROW_SIZE
  }

  /** The inner loop of every tokenizer: one piece into one row. */
  method ReadRow(buf: string, start: nat) returns (row: string, i: nat)
    requires start <= |buf| && TokenLen(buf[start..]) < ROW_SIZE
    ensures i == start + TokenLen(buf[start..]) <= |buf| && row == buf[start..i]
  {
    ghost var n := TokenLen(buf[start..]);
    assert DelimFree(buf[start..][..n]);
    row, i := [], start;
    while i < |buf| && !IsDelim(buf[i])
      invariant start <= i <= start + n <= |buf|
      invariant row == buf[start..i]
    {
      assert |row| < ROW_SIZE - 1;
      row := row + [buf[i]];
      i := i + 1;
    }
    assert |row| < ROW_SIZE;
  }

  /** The tokenizer of rdma_create and rdma_remove.  On input within the limits it writes inside
      its rows only, and the rows are the pieces of the input. */
  method Tokenize(buf: string) returns (rows: seq<string>)
    requires Fits(buf)
    ensures rows == Split(buf)
  {
    hide TokenLen, Split, SplitAt;
    rows := [];
    var i := 0;
    SplitAtEnds(buf, 0);
    while i < |buf|
      invariant 0 <= i <= |buf| + 1
      invariant rows + SplitAt(buf, i) == Split(buf)
    {
      SplitAtStep(buf, i);
      assert buf[i..][..TokenLen(buf[i..])] == Split(buf)[|rows|];
      assert |rows| < ROWS;
      var row;
      row, i := ReadRow(buf, i);
      assert rows + ([row] + SplitAt(buf, i + 1)) == rows + [row] + SplitAt(buf, i + 1);
      rows := rows + [row];
      i := i + 1;
    }
    SplitAtEnds(buf, i);
  }

  lemma SplitAtEnds(buf: string, i: nat)
    ensures SplitAt(buf, 0) == Split(buf)
    ensures i >= |buf| ==> SplitAt(buf, i) == []
  {
    assert buf[0..] == buf;
  }

  /** The text from position `i`, which may be one past the terminator. */
  function Tail(buf: string, i: nat): string {
    if i <= |buf| then buf[i..] else []
  }

  function SplitAt(buf: string, i: nat): seq<string> { Split(Tail(buf, i)) }

  lemma TailStep(buf: string, i: nat)
    requires i < |buf|
    ensures var n := TokenLen(buf[i..]);
            After(buf[i..]) == Tail(buf, i + n + 1) && buf[i..][..n] == buf[i..i + n]
  {
    hide TokenLen;
  }

  lemma SplitAtStep(buf: string, i: nat)
    requires i < |buf|
    ensures var n := TokenLen(buf[i..]);
            SplitAt(buf, i) == [buf[i..][..n]] + SplitAt(buf, i + n + 1) && buf[i..][..n] == buf[i..i + n]
  {
    TailStep(buf, i);
  }

  // ---------------------------------------------------------------- create and remove

  /** Both messages carry the entry, its parent, and whether it is a directory. */
  datatype Kind = CR | RM

  datatype Msg = Msg(kind: Kind, ino: int, name: string, parentIno: int, parentName: string, isDir: bool)

  function Opcode(k: Kind): string {
    match k case CR => "CR" case RM => "RM"
  }

  function Fields(m: Msg): (fs: seq<string>)
    ensures |fs| == 6
  {
    [Opcode(m.kind), PrintInt(m.ino), m.name, PrintInt(m.parentIno), m.parentName, if m.isDir then "1111" else "0000"]
  }

  /** The sprintf of wjfs_client_create and wjfs_client_remove. */
  function Print(m: Msg): string { Join(Fields(m)) }

  /** What the server reads out of the buffer: the opcode is compared on the first two bytes, the
      other fields are the tokens. */
  function Parse(buf: string): Option<Msg> {
    var ts := Split(buf);
    if |buf| < 2 || |ts| < 6 || (buf[..2] != "CR" && buf[..2] != "RM") then None
    else Some(Msg(if buf[..2] == "CR" then CR else RM,
                  Wrap(Value(ts[1])), ts[2], Wrap(Value(ts[3])), ts[4], Wrap(Value(ts[5])) != 0))
  }

  /** The opcode, the inode and name of the entry, those of its parent, and the kind. */
  lemma PrintedText(m: Msg)
    ensures Print(m)
            == (if m.kind.CR? then "CR" else "RM") + " " + (PrintInt(m.ino) + " " + (m.name + " "
               + (PrintInt(m.parentIno) + " " + (m.parentName + " " + if m.isDir then "1111" else "0000"))))
  {
    hide Join;
    JoinSix(Fields(m));
  }

  lemma FieldsDelimFree(m: Msg)
    requires DelimFree(m.name) && DelimFree(m.parentName)
    ensures forall f :: f in Fields(m) ==> DelimFree(f)
  {
  }

  lemma PrintedTokens(m: Msg)
    requires DelimFree(m.name) && DelimFree(m.parentName)
    ensures Split(Print(m)) == Fields(m)
  {
    FieldsDelimFree(m);
    SplitJoin(Fields(m));
  }

  lemma PrintStart(m: Msg)
    ensures |Print(m)| >= 2 && Print(m)[..2] == Opcode(m.kind)
  {
    var fs := Fields(m);
    assert Print(m) == fs[0] + " " + Join(fs[1..]);
  }

  lemma DigitLast(s: string, c: char)
    requires '0' <= c <= '9'
    ensures Value(s + [c]) == Value(s) * 10 + (c as int - '0' as int)
  {
    assert (s + [c])[..|s|] == s;
  }

  lemma FlagValues()
    ensures Wrap(Value("1111")) == 1111 && Wrap(Value("0000")) == 0
  {
    hide Value, Signed;
    ValueNone();
    DigitLast("", '1'); DigitLast("1", '1'); DigitLast("11", '1'); DigitLast("111", '1');
    DigitLast("", '0'); DigitLast("0", '0'); DigitLast("00", '0'); DigitLast("000", '0');
    assert "" + ['1'] == "1" && "1" + ['1'] == "11" && "11" + ['1'] == "111" && "111" + ['1'] == "1111";
    assert "" + ['0'] == "0" && "0" + ['0'] == "00" && "00" + ['0'] == "000" && "000" + ['0'] == "0000";
  }

  /** A message survives printing and parsing exactly when its names hold no delimiter and its
      inode numbers survive. */
  lemma MsgRoundTrip(m: Msg)
    requires IsInt(m.ino) && IsInt(m.parentIno)
    ensures Parse(Print(m)) == Some(m)
            <==> DelimFree(m.name) && DelimFree(m.parentName) && Survives(m.ino) && Survives(m.parentIno)
  {
    hide *;
    if DelimFree(m.name) && DelimFree(m.parentName) {
      ParsePrinted(m);
      IntRoundTrip(m.ino);
      IntRoundTrip(m.parentIno);
    } else {
      ParsedNames(Print(m));
    }
  }

  lemma ParsePrinted(m: Msg)
    requires DelimFree(m.name) && DelimFree(m.parentName)
    ensures Parse(Print(m)) == Some(m.(ino := Wrap(Value(PrintInt(m.ino))), parentIno := Wrap(Value(PrintInt(m.parentIno)))))
  {
    hide Print, Split, Value, PrintInt;
    PrintStart(m);
    FlagValues();
    PrintedTokens(m);
  }

  lemma ParsedNames(buf: string)
    ensures Parse(buf).Some? ==> DelimFree(Parse(buf).value.name) && DelimFree(Parse(buf).value.parentName)
  {
  }

  lemma PrintIntFits(n: int)
    requires IsInt(n)
    ensures |PrintInt(n)| < ROW_SIZE
  {
    var m: nat := if n < 0 then -n else n;
    ValueOfDec(m);
    if |Dec(m)| > 11 { SmallPowers(); PowGrows(10, |Dec(m)| - 1); }
  }

  /** Names that fit their rows make messages that fit the table. */
  lemma PrintedFits(m: Msg)
    requires IsInt(m.ino) && IsInt(m.parentIno) && DelimFree(m.name) && DelimFree(m.parentName)
    ensures Fits(Print(m)) <==> |m.name| < 20 && |m.parentName| < 20
  {
    hide Print;
    PrintedTokens(m);
    PrintIntFits(m.ino);
    PrintIntFits(m.parentIno);
    var fs := Fields(m);
    assert fs[2] == m.name && fs[4] == m.parentName;
  }

  /** The parsing half of rdma_create and rdma_remove. */
  method ReadMsg(buf: string) returns (m: Msg)
    requires Fits(buf) && Parse(buf).Some?
    ensures Parse(buf) == Some(m)
  {
    hide Split, Value;
    var ts := Tokenize(buf);
    var ino := StringToInt(ts[1]);
    var parentIno := StringToInt(ts[3]);
    var mode := StringToInt(ts[5]);
    m := Msg(if buf[..2] == "CR" then CR else RM, ino, ts[2], parentIno, ts[4], mode != 0);
  }

  // ---------------------------------------------------------------- write

  /** The first `n` pieces. */
  function Head(s: string, n: nat): (r: seq<string>)
    ensures |r| <= n
    decreases n
  {
    if n == 0 || s == [] then [] else [s[..TokenLen(s)]] + Head(After(s), n - 1)
  }

  /** What follows them. */
  function Rest(s: string, n: nat): string
    decreases n
  {
    if n == 0 || s == [] then s else Rest(After(s), n - 1)
  }

  /** Everything but carriage returns and line feeds. */
  function Strip(s: string): (r: string)
    ensures |r| <= |s|
    ensures r == s <==> forall i :: 0 <= i < |s| ==> !IsBreak(s[i])
  {
    if s == [] then []
    else
      var r := Strip(s[1..]);
      assert s == [s[0]] + s[1..];
      if IsBreak(s[0]) then r else [s[0]] + r
  }

  /** Carriage returns and line feeds go, and every other character stays in its place. */
  lemma {:induction false} StripEach(s: string, c: char)
    ensures Strip(s + [c]) == if c == '\r' || c == '\n' then Strip(s) else Strip(s) + [c]
  {
    if s == [] {
      assert [] + [c] == [c] && [c][1..] == [];
    } else {
      assert (s + [c])[1..] == s[1..] + [c];
      StripEach(s[1..], c);
    }
  }

  /** "WR", the inode and name of the entry, those of its parent, and the text. */
  lemma WrittenText(ino: int, name: string, parentIno: int, parentName: string, message: string)
    ensures PrintWrite(ino, name, parentIno, parentName, message)
            == "WR" + " " + (PrintInt(ino) + " " + (name + " " + (PrintInt(parentIno) + " " + (parentName + " " + message))))
  {
    var ts := ["WR", PrintInt(ino), name, PrintInt(parentIno), parentName, message];
    JoinSix(ts);
  }

  lemma JoinSix(ts: seq<string>)
    requires |ts| == 6
    ensures Join(ts) == ts[0] + " " + (ts[1] + " " + (ts[2] + " " + (ts[3] + " " + (ts[4] + " " + ts[5]))))
  {
    hide Join;
    JoinOne(ts[5]);
    assert ts[5..] == [ts[5]] && ts[0..] == ts;
    JoinFrom(ts, 4, ts[5]);
    JoinFrom(ts, 3, Join(ts[4..]));
    JoinFrom(ts, 2, Join(ts[3..]));
    JoinFrom(ts, 1, Join(ts[2..]));
    JoinFrom(ts, 0, Join(ts[1..]));
  }

  lemma JoinFrom(ts: seq<string>, i: nat, r: string)
    requires i + 1 < |ts| && Join(ts[i + 1..]) == r
    ensures Join(ts[i..]) == ts[i] + " " + r
  {
    assert ts[i..][1..] == ts[i + 1..];
  }

  function PrintWrite(ino: int, name: string, parentIno: int, parentName: string, message: string): string {
    Join(["WR", PrintInt(ino), name, PrintInt(parentIno), parentName, message])
  }

  lemma {:induction false} HeadJoin(ts: seq<string>, rest: string)
    requires forall t :: t in ts ==> DelimFree(t)
    ensures Head(Join(ts + [rest]), |ts|) == ts && Rest(Join(ts + [rest]), |ts|) == rest
  {
    hide TokenLen, After, Join;
    if ts == [] {
      assert ts + [rest] == [rest];
      JoinOne(rest);
    } else {
      HeadJoin(ts[1..], rest);
      JoinMore(ts, rest);
      AfterFirst(ts[0], Join(ts[1..] + [rest]));
    }
  }

  lemma JoinOne(t: string)
    ensures Join([t]) == t
  {
  }

  lemma JoinMore(ts: seq<string>, rest: string)
    requires ts != []
    ensures Join(ts + [rest]) == ts[0] + " " + Join(ts[1..] + [rest])
  {
    assert (ts + [rest])[1..] == ts[1..] + [rest];
  }

  lemma AfterFirst(t: string, r: string)
    requires DelimFree(t)
    ensures var s := t + " " + r; s != [] && s[..TokenLen(s)] == t && After(s) == r
  {
    hide TokenLen;
    TokenLenIs(t, " " + r);
    assert t + " " + r == t + (" " + r);
  }

  /** The write message comes apart into its five header fields and its payload, whatever the
      payload holds. */
  lemma WriteRoundTrip(ino: int, name: string, parentIno: int, parentName: string, message: string)
    requires DelimFree(name) && DelimFree(parentName)
    ensures var buf := PrintWrite(ino, name, parentIno, parentName, message);
            && Head(buf, 5) == ["WR", PrintInt(ino), name, PrintInt(parentIno), parentName]
            && Rest(buf, 5) == message
  {
    var ts := ["WR", PrintInt(ino), name, PrintInt(parentIno), parentName];
    assert ts + [message] == ["WR", PrintInt(ino), name, PrintInt(parentIno), parentName, message];
    HeadJoin(ts, message);
  }

  /** The two-stage tokenizer of rdma_write.  The sixth row is set exactly when bytes are left
      after the header; it then holds them without carriage returns and line feeds. */
  method TokenizeWrite(buf: string) returns (rows: seq<string>, payload: Option<string>)
    requires (forall t :: t in Head(buf, 5) ==> |t| < ROW_SIZE) && |Strip(Rest(buf, 5))| < ROW_SIZE
    ensures rows == Head(buf, 5)
    ensures payload == if Rest(buf, 5) == [] then None else Some(Strip(Rest(buf, 5)))
  {
    hide TokenLen, Strip, Head, Rest;
    rows := [];
    var i, j := 0, 0;
    assert Tail(buf, 0) == buf;
    while i < |buf| && j < 5
      invariant 0 <= i <= |buf| + 1 && 0 <= j <= 5 && j == |rows|
      invariant rows + Head(Tail(buf, i), 5 - j) == Head(buf, 5) && Rest(Tail(buf, i), 5 - j) == Rest(buf, 5)
    {
      HeadNext(buf, i, 5 - j, rows, Head(buf, 5));
      var row;
      row, i := ReadRow(buf, i);
      rows, i, j := rows + [row], i + 1, j + 1;
    }
    HeadDone(Tail(buf, i), 5 - j);
    assert rows + [] == rows;
    payload := StripRow(buf, i);
  }

  /** One more row of the header. */
  lemma HeadNext(buf: string, i: nat, n: nat, rows: seq<string>, all: seq<string>)
    requires i < |buf| && n > 0 && rows + Head(Tail(buf, i), n) == all
    ensures var k := TokenLen(buf[i..]);
            && buf[i..i + k] in all && rows + [buf[i..i + k]] + Head(Tail(buf, i + k + 1), n - 1) == all
            && Rest(Tail(buf, i), n) == Rest(Tail(buf, i + k + 1), n - 1)
  {
    hide TokenLen, Head, Rest, Tail;
    HeadStep(buf, i, n);
    var k := TokenLen(buf[i..]);
    var row, more := buf[i..i + k], Head(Tail(buf, i + k + 1), n - 1);
    assert rows + ([row] + more) == rows + [row] + more;
    assert all[|rows|] == row;
  }

  lemma HeadDone(s: string, n: nat)
    requires n == 0 || s == []
    ensures Head(s, n) == [] && Rest(s, n) == s
  {
  }

  lemma HeadStep(buf: string, i: nat, n: nat)
    requires i < |buf| && n > 0
    ensures var k := TokenLen(buf[i..]);
            && Head(Tail(buf, i), n) == [buf[i..i + k]] + Head(Tail(buf, i + k + 1), n - 1)
            && Rest(Tail(buf, i), n) == Rest(Tail(buf, i + k + 1), n - 1)
  {
    hide TokenLen, After;
    TailStep(buf, i);
  }

  lemma TailFacts(buf: string, from: nat)
    ensures if from <= |buf| then |Tail(buf, from)| == |buf| - from else Tail(buf, from) == []
    ensures forall i :: from <= i < |buf| ==> Tail(buf, from)[i - from] == buf[i]
  {
  }

  /** The inner part of that loop: up to the next line break. */
  method StripLine(buf: string, from: nat, start: nat, head: string) returns (row: string, i: nat)
    requires from <= start <= |buf| && |Strip(Tail(buf, from))| < ROW_SIZE
    requires head == Strip(Tail(buf, from)[..start - from])
    ensures start <= i <= |buf| && (i < |buf| ==> IsBreak(buf[i])) && row == Strip(Tail(buf, from)[..i - from])
  {
    hide Strip, Tail;
    TailFacts(buf, from);
    row, i := head, start;
    while i < |buf| && !IsBreak(buf[i])
      invariant start <= i <= |buf|
      invariant row == Strip(Tail(buf, from)[..i - from])
    {
      StripSnoc(Tail(buf, from), i - from);
      StripPrefix(Tail(buf, from), i + 1 - from);
      assert |row| < ROW_SIZE - 1;
      row := row + [buf[i]];
      i := i + 1;
    }
  }

  /** The second loop of rdma_write. */
  method StripRow(buf: string, from: nat) returns (payload: Option<string>)
    requires from <= |buf| + 1 && |Strip(Tail(buf, from))| < ROW_SIZE
    ensures payload == if Tail(buf, from) == [] then None else Some(Strip(Tail(buf, from)))
  {
    hide Strip, Tail;
    payload := None;
    TailFacts(buf, from);
    if from >= |buf| { return; }
    var i, row := from, [];
    StripNone();
    while i < |buf|
      invariant from <= i <= |buf| + 1
      invariant row == Strip(Tail(buf, from)[..Min(i, |buf|) - from])
      invariant i > from ==> payload == Some(row)
    {
      row, i := StripLine(buf, from, i, row);
      if i < |buf| { StripSnoc(Tail(buf, from), i - from); }
      payload := Some(row);
      i := i + 1;
    }
    assert Tail(buf, from)[..|buf| - from] == Tail(buf, from);
  }

  function Min(a: int, b: int): int { if a < b then a else b }

  lemma StripNone()
    ensures Strip([]) == []
  {
  }

  lemma {:induction false} StripAppend(a: string, b: string)
    ensures Strip(a + b) == Strip(a) + Strip(b)
  {
    hide Strip;
    if a == [] {
      assert a + b == b;
      StripNone();
    } else {
      StripAppend(a[1..], b);
      StripCons(a);
      StripCons(a + b);
      TailOfSum(a, b);
      Reassociate(a[0], Strip(a[1..]), Strip(b));
    }
  }

  lemma TailOfSum(a: string, b: string)
    requires a != []
    ensures (a + b)[0] == a[0] && (a + b)[1..] == a[1..] + b
  {
  }

  lemma Reassociate(c: char, a: string, b: string)
    ensures [c] + (a + b) == [c] + a + b
  {
  }

  lemma StripCons(s: string)
    requires s != []
    ensures Strip(s) == if IsBreak(s[0]) then Strip(s[1..]) else [s[0]] + Strip(s[1..])
  {
  }

  lemma StripSnoc(s: string, i: nat)
    requires i < |s|
    ensures Strip(s[..i + 1]) == if IsBreak(s[i]) then Strip(s[..i]) else Strip(s[..i]) + [s[i]]
  {
    assert s[..i + 1] == s[..i] + [s[i]];
    StripAppend(s[..i], [s[i]]);
    assert [s[i]][1..] == [];
  }

  lemma StripPrefix(s: string, i: nat)
    requires i <= |s|
    ensures |Strip(s[..i])| <= |Strip(s)|
  {
    assert s == s[..i] + s[i..];
    StripAppend(s[..i], s[i..]);
  }
}
