/** The decimal numbers of basic.c: 64-bit arithmetic and the text printed for a number. */
module BasicNumber {
  import opened Bytes
  import opened BasicLines

  const MIN := -0x8000_0000_0000_0000
  const MAX := 0x7FFF_FFFF_FFFF_FFFF

  /** Two's-complement wrap-around to 64 bits. */
  function Wrap(n: int): (r: int)
    ensures MIN <= r <= MAX
    ensures MIN <= n <= MAX ==> r == n
    ensures (r - n) % 0x1_0000_0000_0000_0000 == 0
  {
    (n - MIN) % 0x1_0000_0000_0000_0000 + MIN
  }

  /** The remainder and quotient of C, which truncate towards zero. */
  function Rem(a: int, b: int): int
    requires b != 0
  {
    a - b * Quot(a, b)
  }

  function Quot(a: int, b: int): int
    requires b != 0
  {
    if a >= 0 then (if b > 0 then a / b else -(a / -b)) else if b > 0 then -(-a / b) else -a / -b
  }

  /** The quotient is that of the magnitudes, with a minus sign if the signs differ. */
  function Truncated(a: int, b: int): int
    requires b != 0
  {
    var q := Magnitude(a) / Magnitude(b);
    if (a < 0) == (b < 0) then q else -q
  }

  function Magnitude(a: int): nat {
    if a < 0 then -a else a
  }

  lemma QuotTruncates(a: int, b: int)
    requires b != 0
    ensures Quot(a, b) == Truncated(a, b)
  {
  }

  /** What is left has a smaller magnitude than the divisor and the sign of the dividend. */
  lemma QuotLeaves(a: int, b: int)
    requires b != 0
    ensures a == b * Quot(a, b) + Rem(a, b) && Magnitude(Rem(a, b)) < Magnitude(b)
    ensures Rem(a, b) == 0 || (Rem(a, b) < 0 <==> a < 0)
  {
    var q, r := Magnitude(a) / Magnitude(b), Magnitude(a) % Magnitude(b);
    assert Magnitude(a) == Magnitude(b) * q + r;
    QuotTruncates(a, b);
    assert b * q == if b > 0 then Magnitude(b) * q else -(Magnitude(b) * q);
    assert b * -q == -(b * q);
  }

  /** The digits of a positive number; none for zero. */
  function DigitsOf(n: nat): seq<byte> {
    if n == 0 then [] else DigitsOf(n / 10) + [48 + n % 10]
  }

  function Decimal(n: nat): seq<byte> {
    if n == 0 then [48] else DigitsOf(n)
  }

  /** What the digit loop of `printnum` leaves on the stack.  The least number has no positive
      counterpart: its negation is itself, and a single remainder of -8 is left. */
  function DigitText(n: int): seq<byte>
    requires n >= 0 || n == MIN
  {
    if n == MIN then [40] else Decimal(n)
  }

  lemma InRange(n: int)
    requires MIN <= n <= MAX
    ensures Wrap(n) == n
  {
  }

  /** What `printnum` writes. */
  function NumText(n: int): seq<byte>
    requires MIN <= n <= MAX
  {
    if n >= 0 then Decimal(n) else [45] + DigitText(Wrap(-n))
  }

  /** One round of the digit loop: the last digit of `num` goes in front of `tail`. */
  lemma DigitRound(num: nat, tail: seq<byte>)
    requires num > 0
    ensures DigitsOf(num / 10) + ([48 + num % 10] + tail) == DigitsOf(num) + tail
  {
  }

  lemma QuotRem(a: int)
    requires a >= 0
    ensures Quot(a, 10) == a / 10 && Rem(a, 10) == a % 10
  {
  }

  /** Before a round of the digit loop: `tail` is pushed and the digits of `num` are to come. */
  ghost predicate Round(n: int, num: int, tail: seq<byte>)
    requires n >= 0 || n == MIN
  {
    if tail == [] then num == n else num > 0 && DigitsOf(num) + tail == DigitText(n)
  }

  lemma NextRound(n: int, num: int, tail: seq<byte>)
    requires (n >= 0 || n == MIN) && Round(n, num, tail)
    ensures 0 <= Rem(num, 10) + 48 < 256
    ensures var rest, more := Quot(num, 10), [Rem(num, 10) + 48] + tail;
      && (rest <= 0 ==> more == DigitText(n))
      && (rest > 0 ==> rest < num && Round(n, rest, more))
  {
    if num >= 0 {
      QuotRem(num);
    }
    if num > 0 {
      DigitRound(num, tail);
      assert DigitsOf(0) == [];
    }
  }

  function Pow10(k: nat): nat {
    if k == 0 then 1 else 10 * Pow10(k - 1)
  }

  lemma {:induction false} DigitCount(n: nat, k: nat)
    requires n < Pow10(k)
    ensures |DigitsOf(n)| <= k
    decreases k
  {
    if n > 0 {
      DigitCount(n / 10, k - 1);
    }
  }

  lemma ShortNumbers(n: nat)
    requires n <= MAX
    ensures 1 <= |Decimal(n)| <= 19
  {
    assert Pow10(7) == 10_000_000;
    assert Pow10(13) == 1000_000 * Pow10(7);
    assert Pow10(19) == 1000_000 * Pow10(13);
    DigitCount(n, 19);
  }

  /** Wrapping forgets multiples of 2^64. */
  lemma WrapMultiple(n: int, k: int)
    ensures Wrap(n + k * 0x1_0000_0000_0000_0000) == Wrap(n)
  {
    var m := 0x1_0000_0000_0000_0000;
    var x := n - MIN;
    assert x + k * m == x % m + (x / m + k) * m;
    ModUnique(x + k * m, x / m + k, x % m);
  }

  lemma ModUnique(y: int, q: int, r: int)
    requires y == q * 0x1_0000_0000_0000_0000 + r && 0 <= r < 0x1_0000_0000_0000_0000
    ensures y % 0x1_0000_0000_0000_0000 == r
  {
  }

  /** Accumulating a digit commutes with wrapping. */
  lemma WrapDigit(a: int, d: int)
    ensures Wrap(Wrap(a) * 10 + d) == Wrap(a * 10 + d)
  {
    var k := -((a - MIN) / 0x1_0000_0000_0000_0000);
    assert Wrap(a) == a + k * 0x1_0000_0000_0000_0000;
    WrapMultiple(a * 10 + d, 10 * k);
  }
}
