/** Digits of numbers: the positional notation that the number printer produces, and the
    reciprocal multiplications it divides with. */
module PrintfDigits {
  import Bits

  /** Digits of n, least significant first, without leading zeros. */
  function RevDigits(n: nat, base: nat): (ds: seq<nat>)
    requires base > 1
    ensures |ds| > 0
  {
    if n < base then [n] else
      Smaller(n, base);
      [n % base] + RevDigits(n / base, base)
  }

  /** The number that reversed digits stand for. */
  function Value(ds: seq<nat>, base: nat): nat {
    if ds == [] then 0 else ds[0] + base * Value(ds[1..], base)
  }

  function Power(base: nat, k: nat): nat {
    if k == 0 then 1 else base * Power(base, k - 1)
  }

  /** The digits read in the base give the number back; each is a digit; none leads with zero. */
  lemma {:induction false} RevDigitsValue(n: nat, base: nat)
    requires base > 1
    ensures Value(RevDigits(n, base), base) == n
    ensures forall i | 0 <= i < |RevDigits(n, base)| :: RevDigits(n, base)[i] < base
    ensures var ds := RevDigits(n, base); |ds| > 1 ==> ds[|ds| - 1] != 0
    decreases n
  {
    var ds := RevDigits(n, base);
    if n < base {
      assert Value(ds[1..], base) == 0;
    } else {
      Smaller(n, base);
      var q, d := n / base, n % base;
      RevDigitsValue(q, base);
      ValueCons(d, RevDigits(q, base), base);
      Recompose(n, base, q, d);
    }
  }

  lemma ValueCons(d: nat, rest: seq<nat>, base: nat)
    ensures Value([d] + rest, base) == d + base * Value(rest, base)
  {
    assert ([d] + rest)[1..] == rest;
  }

  lemma Recompose(n: nat, base: nat, q: nat, d: nat)
    requires base > 1 && q == n / base && d == n % base
    ensures n == d + base * q && d < base
  {
  }

  lemma Smaller(n: nat, base: nat)
    requires base > 1 && n >= base
    ensures 0 < n / base < n
  {
    var q := n / base;
    assert n == base * q + n % base;
    Bits.MulMonotone(2, base, q);
    assert q == 0 ==> base * q == 0;
  }

  /** A number of more than one digit is not below base^(digits - 1). */
  lemma {:induction false} DigitsNeeded(n: nat, base: nat)
    requires base > 1
    ensures |RevDigits(n, base)| > 1 ==> Power(base, |RevDigits(n, base)| - 1) <= n
    decreases n
  {
    if n >= base {
      var q := n / base;
      Smaller(n, base);
      DigitsNeeded(q, base);
      var k: nat := |RevDigits(q, base)| - 1;
      assert Power(base, k) <= q by { assert Power(base, 0) == 1; }
      Recompose(n, base, q, n % base);
      Bits.MulMonotone(Power(base, k), q, base);
      assert base * Power(base, k) <= base * q <= n;
    }
  }

  /** And below base^digits. */
  lemma {:induction false} DigitsSuffice(n: nat, base: nat)
    requires base > 1
    ensures n < Power(base, |RevDigits(n, base)|)
    decreases n
  {
    PowerOne(base);
    if n >= base {
      var q, d := n / base, n % base;
      Smaller(n, base);
      DigitsSuffice(q, base);
      var m := Power(base, |RevDigits(q, base)|);
      Recompose(n, base, q, d);
      Bits.MulMonotone(q + 1, m, base);
      assert n < base * q + base == (q + 1) * base <= m * base == base * m;
    }
  }

  /** A number below base^k has at most k digits. */
  lemma {:induction false} DigitCount(n: nat, base: nat, k: nat)
    requires base > 1 && k > 0 && n < Power(base, k)
    ensures |RevDigits(n, base)| <= k
    decreases k
  {
    PowerOne(base);
    if n >= base {
      Smaller(n, base);
      QuotientBelow(n, base, Power(base, k - 1));
      DigitCount(n / base, base, k - 1);
    }
  }

  lemma PowerOne(base: nat)
    ensures Power(base, 1) == base
  {
    assert Power(base, 0) == 1;
  }

  lemma QuotientBelow(n: nat, base: nat, m: nat)
    requires base > 1 && n < base * m
    ensures n / base < m
  {
    var q := n / base;
    assert n == base * q + n % base;
    if q >= m { Bits.MulMonotone(m, q, base); }
  }

  // ---- Division by ten without dividing ----

  /** 0x1999999a / 2^32, in the two shifts the code uses. */
  lemma TenthWide(r: nat)
    requires r < 100_000_000
    ensures r * 0x1999_999a / 0x10_0000 / 0x1000 == r / 10
  {
    var q, d := r / 10, r % 10;
    assert r * 0x1999_999a == q * 0x1_0000_0000 + (4 * q + d * 0x1999_999a);
    assert 4 * q + d * 0x1999_999a < 0x1_0000_0000;
  }

  lemma TenthFour(r: nat)
    requires r <= 9999
    ensures r * 0x199a / 0x1_0000 == r / 10
  {
    var q, d := r / 10, r % 10;
    assert r * 0x199a == q * 0x1_0000 + (4 * q + d * 0x199a);
  }

  lemma TenthThree(r: nat)
    requires r <= 999
    ensures r * 0xcd / 0x800 == r / 10
  {
    var q, d := r / 10, r % 10;
    assert r * 0xcd == q * 0x800 + (2 * q + d * 0xcd);
  }

  // ---- Characters ----

  const DIGITS: seq<char> := "0123456789ABCDEF"

  /** `c | 0x20` when lower case is asked for. */
  function Locase(c: char, small: bool): char
    requires c < 128 as char
  {
    if small && (c as int / 32) % 2 == 0 then (c as int + 32) as char else c
  }

  function DigitChar(d: nat, small: bool): char {
    if d < 16 then Locase(DIGITS[d], small) else '?'
  }

  /** What a digit character stands for. */
  function DigitOf(c: char): nat {
    if '0' <= c <= '9' then (c - '0') as nat
    else if 'A' <= c <= 'F' then (c - 'A') as nat + 10
    else if 'a' <= c <= 'f' then (c - 'a') as nat + 10
    else 0
  }

  lemma DigitCharReads(d: nat, small: bool)
    requires d < 16
    ensures DigitOf(DigitChar(d, small)) == d
    ensures d < 10 ==> DigitChar(d, small) == '0' + d as char && '0' <= DigitChar(d, small) <= '9'
  {
  }

  function Chars(ds: seq<nat>, small: bool): seq<char> {
    seq(|ds|, i requires 0 <= i < |ds| => DigitChar(ds[i], small))
  }

  function Reverse(s: seq<char>): seq<char> {
    seq(|s|, i requires 0 <= i < |s| => s[|s| - 1 - i])
  }

  /** A number as text, most significant digit first. */
  function Digits(n: nat, base: nat, small: bool): seq<char>
    requires base > 1
  {
    Reverse(Chars(RevDigits(n, base), small))
  }

  /** Reading digit characters in a base. */
  function Read(s: seq<char>, base: nat): nat {
    if s == [] then 0 else Read(s[..|s| - 1], base) * base + DigitOf(s[|s| - 1])
  }

  lemma {:induction false} ReadReverse(ds: seq<nat>, base: nat, small: bool)
    requires base <= 16 && forall i | 0 <= i < |ds| :: ds[i] < base
    ensures Read(Reverse(Chars(ds, small)), base) == Value(ds, base)
  {
    if ds != [] {
      var front := Reverse(Chars(ds[1..], small));
      ReadReverse(ds[1..], base, small);
      DigitCharReads(ds[0], small);
      assert Reverse(Chars(ds, small)) == front + [DigitChar(ds[0], small)];
      ReadSnoc(front, DigitChar(ds[0], small), base);
    }
  }

  lemma ReadSnoc(s: seq<char>, c: char, base: nat)
    ensures Read(s + [c], base) == Read(s, base) * base + DigitOf(c)
  {
    assert (s + [c])[..|s|] == s;
  }

  /** Printed digits read back as the number. */
  lemma DigitsRead(n: nat, base: nat, small: bool)
    requires 1 < base <= 16
    ensures Read(Digits(n, base, small), base) == n
  {
    RevDigitsValue(n, base);
    ReadReverse(RevDigits(n, base), base, small);
  }
}
