/**
 Inode numbers on the wire: sprintf's %d on one side, string2int on the other, both over
 32-bit ints.
 */
module Decimal {

  const INT_MIN: int := -0x8000_0000
  const INT_MAX: int := 0x7fff_ffff

  predicate IsInt(x: int) { INT_MIN <= x <= INT_MAX }

  /** What an int holds after a computation that overflowed. */
  function Wrap(x: int): (r: int)
    ensures IsInt(r) && (x - r) % 0x1_0000_0000 == 0
    ensures IsInt(x) ==> r == x
  {
    (x + 0x8000_0000) % 0x1_0000_0000 - 0x8000_0000
  }

  lemma WrapUnique(x: int, y: int)
    ensures Wrap(x) == Wrap(y) <==> (x - y) % 0x1_0000_0000 == 0
  {
  }

  function Digit(d: nat): char
    requires d < 10
  {
    ('0' as int + d) as char
  }

  function Dec(n: nat): (s: string)
    ensures s != []
    ensures forall i :: 0 <= i < |s| ==> '0' <= s[i] <= '9'
  {
    if n < 10 then [Digit(n)] else Dec(n / 10) + [Digit(n % 10)]
  }

  /** sprintf with %d. */
  function PrintInt(n: int): (s: string)
    ensures s != []
  {
    if n < 0 then "-" + Dec(-n) else Dec(n)
  }

  /** A char is a signed byte. */
  function Signed(c: char): (r: int)
    ensures -128 <= r < 128 && (c as int - r) % 256 == 0
  {
    var b := c as int % 256;
    if b < 128 then b else b - 256
  }

  /** The number string2int computes when no int overflows: each character counts as its
      distance from '0', digit or not. */
  function Value(s: string): int {
    if s == [] then 0 else Value(s[..|s| - 1]) * 10 + (Signed(s[|s| - 1]) - Signed('0'))
  }

  /** string2int on 32-bit ints: overflow on the way does not change the final wrapped value. */
  method StringToInt(buf: string) returns (ans: int)
    ensures ans == Wrap(Value(buf))
  {
    ans := 0;
    var i := 0;
    while i < |buf|
      invariant i <= |buf|
      invariant ans == Wrap(Value(buf[..i]))
    {
      ghost var before := Value(buf[..i]);
      ans := Wrap(ans * 10);
      ans := Wrap(ans + (Signed(buf[i]) - Signed('0')));
      assert buf[..i + 1][..i] == buf[..i];
      WrapStep(before, Signed(buf[i]) - Signed('0'));
      i := i + 1;
    }
    assert buf[..i] == buf;
  }

  /** Wrapping takes away whole turns, and whole turns make no difference. */
  lemma WrapTurns(x: int) returns (k: int)
    ensures Wrap(x) == x - k * 0x1_0000_0000
  {
    k := (x + 0x8000_0000) / 0x1_0000_0000;
  }

  lemma WrapShift(x: int, k: int)
    ensures Wrap(x + k * 0x1_0000_0000) == Wrap(x)
  {
  }

  lemma WrapStep(v: int, c: int)
    ensures Wrap(Wrap(Wrap(v) * 10) + c) == Wrap(v * 10 + c)
  {
    hide Wrap;
    var k := WrapTurns(v);
    var j := WrapTurns(Wrap(v) * 10);
    WrapShift(v * 10 + c, -(k * 10 + j));
  }

  function Pow10(k: nat): (p: nat)
    ensures p >= 1
  {
    if k == 0 then 1 else 10 * Pow10(k - 1)
  }

  lemma {:induction false} ValueAppend(a: string, b: string)
    ensures Value(a + b) == Value(a) * Pow10(|b|) + Value(b)
    decreases |b|
  {
    hide Value, Signed;
    if b == [] {
      assert a + b == a;
      ValueNone();
    } else {
      var b' := b[..|b| - 1];
      assert (a + b)[..|a + b| - 1] == a + b' && (a + b)[|a + b| - 1] == b[|b| - 1];
      ValueAppend(a, b');
      ValueLast(a + b);
      ValueLast(b);
      ShiftDigits(Value(a), Pow10(|b'|), Value(b'));
    }
  }

  lemma ValueNone()
    ensures Value([]) == 0
  {
  }

  lemma ValueLast(s: string)
    requires s != []
    ensures Value(s) == Value(s[..|s| - 1]) * 10 + (Signed(s[|s| - 1]) - Signed('0'))
  {
  }

  lemma ShiftDigits(x: int, p: int, y: int)
    ensures (x * p + y) * 10 == x * (10 * p) + y * 10
  {
  }

  lemma DecStep(n: nat)
    requires n >= 10
    ensures Value(Dec(n)) == Value(Dec(n / 10)) * 10 + n % 10 && |Dec(n)| == |Dec(n / 10)| + 1
  {
    hide Value, Signed;
    var s := Dec(n);
    assert s[..|s| - 1] == Dec(n / 10) && s[|s| - 1] == Digit(n % 10);
    ValueLast(s);
    DigitValue(n % 10);
  }

  lemma DigitValue(d: nat)
    requires d < 10
    ensures Signed(Digit(d)) - Signed('0') == d
  {
  }

  /** The digits of `n` are its value, and as many as its size asks for. */
  lemma {:induction false} ValueOfDec(n: nat)
    ensures Value(Dec(n)) == n
    ensures n < Pow10(|Dec(n)|)
    ensures n > 0 ==> Pow10(|Dec(n)| - 1) <= n
  {
    if n >= 10 {
      hide Dec, Value;
      ValueOfDec(n / 10);
      DecStep(n);
    } else {
      assert [Digit(n)][..0] == [];
    }
  }

  lemma ValueOfNegative(m: nat)
    ensures Value("-" + Dec(m)) == m - 3 * Pow10(|Dec(m)|)
  {
    hide Dec, Value, Pow10;
    ValueAppend("-", Dec(m));
    ValueOfDec(m);
    MinusSign();
  }

  lemma MinusSign()
    ensures Value("-") == -3
  {
    assert "-"[..0] == [];
  }

  /** The numbers that survive the trip: the non-negative ones, and by a coincidence of the
      wrap-around a single negative one. */
  predicate Survives(n: int) { n >= 0 || n == -2115098112 }

  lemma IntRoundTrip(n: int)
    requires IsInt(n)
    ensures Wrap(Value(PrintInt(n))) == n <==> Survives(n)
  {
    hide Value, Dec, Pow10, Wrap;
    if n >= 0 {
      ValueOfDec(n);
    } else {
      var m: nat := -n;
      var k: nat := |Dec(m)|;
      ValueOfNegative(m);
      ValueOfDec(m);
      WrapUnique(m - 3 * Pow10(k), n);
      assert m - 3 * Pow10(k) - n == 2 * m - 3 * Pow10(k);
      NegativeCase(m, k);
    }
  }

  lemma NegativeCase(m: nat, k: nat)
    requires 0 < m <= 0x8000_0000 && k > 0 && Pow10(k - 1) <= m < Pow10(k)
    ensures (2 * m - 3 * Pow10(k)) % 0x1_0000_0000 == 0 <==> m == 2115098112
  {
    SmallPowers();
    if k > 10 { PowGrows(10, k - 1); }
  }

  lemma SmallPowers()
    ensures Pow10(1) == 10 && Pow10(2) == 100 && Pow10(3) == 1000 && Pow10(4) == 10000 && Pow10(5) == 100000
    ensures Pow10(6) == 1000000 && Pow10(7) == 10000000 && Pow10(8) == 100000000 && Pow10(9) == 1000000000
    ensures Pow10(10) == 10000000000 && Pow10(0) == 1
  {
    assert Pow10(2) == 100;
    assert Pow10(4) == 10000;
    assert Pow10(6) == 1000000;
    assert Pow10(8) == 100000000;
  }

  lemma {:induction false} PowGrows(j: nat, k: nat)
    requires j <= k
    ensures Pow10(j) <= Pow10(k)
  {
    if j < k { PowGrows(j, k - 1); }
  }
}
