/** The number printer: digits into a small buffer back to front, then the field. */
module PrintfNumber {
  import opened PrintfDigits
  import opened PrintfSpec
  import opened PrintfSink

  lemma CharsOfOne(d: nat, small: bool)
    ensures Chars([d], small) == [DigitChar(d, small)]
  {
  }

  /** One more digit of a number that still has more than one. */
  lemma CharsStep(n: nat, base: nat, small: bool)
    requires base > 1 && n >= base
    ensures Chars(RevDigits(n, base), small) ==
            [DigitChar(n % base, small)] + Chars(RevDigits(n / base, base), small)
  {
    Smaller(n, base);
  }

  /** Store one digit of `all` behind those already there; `rest` is still to come. */
  method StoreDigit(tmp: array<char>, i: nat, c: char, ghost all: seq<char>, ghost rest: seq<char>)
    requires i <= tmp.Length && |all| <= tmp.Length && all == tmp[..i] + ([c] + rest)
    modifies tmp
    ensures i + 1 <= |all| && all == tmp[..i + 1] + rest
  {
    tmp[i] := c;
  }

  /** Decimal digits of r < 10^8, least significant first; returns how many. */
  method PutDecTrunc8(tmp: array<char>, r0: nat) returns (n: nat)
    requires tmp.Length >= 8 && r0 < 100_000_000
    modifies tmp
    ensures n <= 8 && tmp[..n] == Chars(RevDigits(r0, 10), false)
  {
    DigitCount(r0, 10, 8);
    ghost var all := Chars(RevDigits(r0, 10), false);
    var r: nat := r0;
    n := 0;
    while r >= 10000
      invariant n <= tmp.Length && r < 100_000_000
      invariant all == tmp[..n] + Chars(RevDigits(r, 10), false)
    {
      r := PutDecStep(tmp, n, r, all);
      n := n + 1;
    }
    n := PutDecTail(tmp, n, r, all);
  }

  /** One round of the loop for five to eight digits. */
  method PutDecStep(tmp: array<char>, n: nat, r0: nat, ghost all: seq<char>) returns (r: nat)
    requires n <= tmp.Length && |all| <= tmp.Length && 10000 <= r0 < 100_000_000
    requires all == tmp[..n] + Chars(RevDigits(r0, 10), false)
    modifies tmp
    ensures r == r0 / 10 && n + 1 <= |all| && all == tmp[..n + 1] + Chars(RevDigits(r, 10), false)
  {
    TenthWide(r0);
    PutsDigit(r0, r0 / 10);
    var q := r0 + '0' as nat;
    r := r0 * 0x1999_999a / 0x10_0000 / 0x1000;
    StoreDigit(tmp, n, (q - 10 * r) as char, all, Chars(RevDigits(r, 10), false));
  }

  /** The last four digits, with an early way out after each. */
  method PutDecTail(tmp: array<char>, start: nat, r0: nat, ghost all: seq<char>) returns (n: nat)
    requires start <= |all| <= tmp.Length && r0 <= 9999
    requires all == tmp[..start] + Chars(RevDigits(r0, 10), false)
    modifies tmp
    ensures n == |all| && tmp[..n] == all
  {
    n := start;
    var r := r0;
    TenthFour(r);
    var q := r * 0x199a / 0x1_0000;
    PutsDigit(r, q);
    tmp[n] := (r - 10 * q + '0' as nat) as char;
    n := n + 1;
    if q == 0 { return; }
    TenthThree(q);
    r := q * 0xcd / 0x800;
    PutsDigit(q, r);
    tmp[n] := (q - 10 * r + '0' as nat) as char;
    n := n + 1;
    if r == 0 { return; }
    TenthThree(r);
    q := r * 0xcd / 0x800;
    PutsDigit(r, q);
    tmp[n] := (r - 10 * q + '0' as nat) as char;
    n := n + 1;
    if q == 0 { return; }
    PutsDigit(q, 0);
    tmp[n] := (q + '0' as nat) as char;
    n := n + 1;
  }

  lemma PutsDigit(r: nat, q: nat)
    requires q == r / 10
    ensures 0 <= r - 10 * q < 10
    ensures (r - 10 * q + '0' as nat) as char == DigitChar(r % 10, false)
    ensures Chars(RevDigits(r, 10), false) ==
            if q == 0 then [DigitChar(r % 10, false)]
            else [DigitChar(r % 10, false)] + Chars(RevDigits(q, 10), false)
  {
    DecimalChar(r % 10);
    if q == 0 { OneDigit(r); } else { CharsStep(r, 10, false); }
  }

  lemma DecimalChar(d: nat)
    requires d < 10
    ensures (d + '0' as nat) as char == DigitChar(d, false)
  {
    DigitCharReads(d, false);
  }

  lemma OneDigit(r: nat)
    requires r < 10
    ensures Chars(RevDigits(r, 10), false) == [DigitChar(r % 10, false)]
  {
    CharsOfOne(r, false);
  }

  /** Octal or hexadecimal digits by masking and shifting. */
  method PutMasked(tmp: array<char>, num0: nat, base: nat, small: bool) returns (i: nat)
    requires tmp.Length == 66 && num0 < LL && base in {8, 16}
    modifies tmp
    ensures i <= 22 && tmp[..i] == Chars(RevDigits(num0, base), small)
  {
    DigitsFit(num0, base);
    var mask := base - 1;
    ghost var all := Chars(RevDigits(num0, base), small);
    var num: nat := num0;
    MaskedStep(num, base, small);
    StoreDigit(tmp, 0, DigitChar(num % 256 % (mask + 1), small), all, Remaining(num / base, base, small));
    i, num := 1, num / base;                // num >>= shift
    while num != 0
      invariant i <= |all| && all == tmp[..i] + Remaining(num, base, small)
      decreases num
    {
      MaskedStep(num, base, small);
      StoreDigit(tmp, i, DigitChar(num % 256 % (mask + 1), small), all, Remaining(num / base, base, small));
      i, num := i + 1, num / base;
    }
  }

  function Remaining(num: nat, base: nat, small: bool): seq<char>
    requires base > 1
  {
    if num == 0 then [] else Chars(RevDigits(num, base), small)
  }

  /** `((unsigned char)num) & mask` is the last digit; shifting leaves the others. */
  lemma MaskedStep(num: nat, base: nat, small: bool)
    requires base in {8, 16}
    ensures Chars(RevDigits(num, base), small) ==
            [DigitChar(num % 256 % base, small)] + Remaining(num / base, base, small)
    ensures num / base == 0 || num / base < num
  {
    LowByte(num, base);
    if num < base {
      CharsOfOne(num, small);
      SmallQuotient(num, base);
    } else {
      Smaller(num, base);
      CharsStep(num, base, small);
    }
  }

  lemma SmallQuotient(num: nat, base: nat)
    requires num < base
    ensures num / base == 0 && num % base == num
  {
  }

  lemma LowByte(num: nat, base: nat)
    requires base in {8, 16}
    ensures num % 256 % base == num % base
  {
    if base == 8 {
      assert num % 256 % 8 == num % 8;
    } else {
      assert num % 256 % 16 == num % 16;
    }
  }

  /** The digits of num into tmp, least significant first. */
  method GenerateDigits(tmp: array<char>, num: nat, base: nat, small: bool) returns (i: nat)
    requires tmp.Length == 66 && num < LL && base in {8, 10, 16} && (base == 10 ==> num < 100_000_000)
    modifies tmp
    ensures i <= 22 && tmp[..i] == Chars(RevDigits(num, base), small)
  {
    if num < base {
      CharsOfOne(num, small);
      tmp[0] := DigitChar(num, small);
      i := 1;
    } else if base != 10 {
      i := PutMasked(tmp, num, base, small);
    } else {
      i := PutDecTrunc8(tmp, num);
      DecimalHasNoCase(num, small);
    }
  }

  /** OR-ing 0x20 into decimal digits changes nothing. */
  lemma DecimalHasNoCase(num: nat, small: bool)
    ensures Chars(RevDigits(num, 10), small) == Chars(RevDigits(num, 10), false)
  {
    RevDigitsValue(num, 10);
    var ds := RevDigits(num, 10);
    forall i | 0 <= i < |ds| ensures DigitChar(ds[i], small) == DigitChar(ds[i], false) {
      DigitCharReads(ds[i], small);
      DigitCharReads(ds[i], false);
    }
  }

  /** `while (--field_width >= 0)`: pad, and leave the counter below zero. */
  method PadField(sink: Sink, c: char, width0: Int16) returns (width: Int16)
    requires sink.Valid()
    modifies sink, sink.buf
    ensures sink.Valid() && sink.out == old(sink.out) + Fill(c, PadCount(width0))
    ensures width == AfterPad(width0)
  {
    width := ToInt16(width0 - 1);
    ghost var n := PadCount(width0);
    while width >= 0
      invariant sink.Valid() && if n == 0 then width == AfterPad(width0) else -1 <= width < n
      invariant sink.out == old(sink.out) + Fill(c, if n == 0 then 0 else n - 1 - width)
      decreases width
    {
      sink.Put(c);
      width := ToInt16(width - 1);
    }
  }

  /** `while (i <= --precision)`: zeros until the precision is met. */
  method ZeroFill(sink: Sink, i: nat, precision0: Int16)
    requires sink.Valid() && i <= precision0
    modifies sink, sink.buf
    ensures sink.Valid() && sink.out == old(sink.out) + Fill('0', precision0 - i)
  {
    var precision: Int16 := ToInt16(precision0 - 1);
    while i <= precision
      invariant sink.Valid() && i - 1 <= precision <= precision0 - 1
      invariant sink.out == old(sink.out) + Fill('0', precision0 - 1 - precision)
      decreases precision
    {
      sink.Put('0');
      precision := ToInt16(precision - 1);
    }
  }

  /** `while (--i >= 0)`: the digits, back to front. */
  method PutReversed(sink: Sink, tmp: array<char>, n: nat)
    requires sink.Valid() && n <= tmp.Length && tmp != sink.buf
    modifies sink, sink.buf
    ensures sink.Valid() && sink.out == old(sink.out) + Reverse(tmp[..n])
  {
    var i := n - 1;
    ghost var text := tmp[..n];
    while i >= 0
      invariant sink.Valid() && -1 <= i < n && tmp[..n] == text
      invariant sink.out == old(sink.out) + Reverse(text)[..n - 1 - i]
      decreases i
    {
      sink.Put(tmp[i]);
      i := i - 1;
    }
    assert Reverse(text)[..n] == Reverse(text);
  }

  method PutSign(sink: Sink, num: nat, spec: Spec)
    requires sink.Valid()
    modifies sink, sink.buf
    ensures sink.Valid() && sink.out == old(sink.out) + SignText(num, spec)
  {
    var sign := Sign(num, spec);
    if sign != '\0' { sink.Put(sign); }
  }

  /** The sign character, or NUL for none. */
  function Sign(num: nat, spec: Spec): (c: char)
    ensures SignText(num, spec) == if c == '\0' then "" else [c]
  {
    if !spec.flags.sign then '\0'
    else if num >= LL / 2 then '-'
    else if spec.flags.plus then '+'
    else if spec.flags.space then ' '
    else '\0'
  }

  method PutPrefix(sink: Sink, num: nat, spec: Spec)
    requires sink.Valid() && spec.base in {8, 10, 16}
    modifies sink, sink.buf
    ensures sink.Valid() && sink.out == old(sink.out) + PrefixText(num, spec)
  {
    if spec.flags.special && spec.base != 10 {
      if spec.base == 16 || num != 0 { sink.Put('0'); }
      if spec.base == 16 { sink.Put(Locase('X', spec.flags.small)); }
    }
  }

  method Number(sink: Sink, num0: nat, spec: Spec)
    requires sink.Valid() && NumberSupported(num0, spec)
    modifies sink, sink.buf
    ensures sink.Valid() && sink.out == old(sink.out) + NumberText(num0, spec)
  {
    var tmp := new char[66];
    var num := num0;
    var zeropad := spec.flags.zeropad && !spec.flags.left;
    if spec.flags.sign && num >= LL / 2 { num := LL - num; }
    var width := WidthLeft(num0, spec);
    var i := GenerateDigits(tmp, num, spec.base, spec.flags.small);
    assert Reverse(tmp[..i]) == Digits(Magnitude(num0, spec), spec.base, spec.flags.small);
    var precision: Int16 := spec.precision;
    if i > precision { precision := i; }
    RoomLeft(num0, spec, width, i, precision);
    width := ToInt16(width - precision);
    PutField(sink, tmp, i, num0, spec, zeropad, width, precision);
  }

  /** The width without what sign and prefix take. */
  method WidthLeft(num: nat, spec: Spec) returns (width: Int16)
    requires spec.base in {8, 10, 16}
    ensures width == ToInt16(ToInt16(spec.fieldWidth - |SignText(num, spec)|) - |PrefixText(num, spec)|)
  {
    width := spec.fieldWidth;
    if Sign(num, spec) != '\0' { width := ToInt16(width - 1); }
    if spec.flags.special && spec.base != 10 {
      if spec.base == 16 {
        width := ToInt16(width - 2);
      } else if num != 0 {
        width := ToInt16(width - 1);
      }
    }
  }

  lemma RoomLeft(num: nat, spec: Spec, width: Int16, i: nat, precision: Int16)
    requires NumberSupported(num, spec)
    requires width == ToInt16(ToInt16(spec.fieldWidth - |SignText(num, spec)|) - |PrefixText(num, spec)|)
    requires i == |Digits(Magnitude(num, spec), spec.base, spec.flags.small)|
    requires precision == Max(spec.precision, i)
    ensures ToInt16(width - precision) == ToInt16(Room(num, spec))
  {
    OneWrap(spec.fieldWidth, |SignText(num, spec)|, |PrefixText(num, spec)|, precision);
  }

  /** Wrapping at every subtraction is wrapping once at the end. */
  lemma OneWrap(width: int, a: int, b: int, c: int)
    ensures ToInt16(ToInt16(ToInt16(width - a) - b) - c) == ToInt16(width - (a + b + c))
  {
    WrapTwice(width - a, b);
    WrapTwice(width - a - b, c);
  }

  lemma WrapTwice(x: int, y: int)
    ensures ToInt16(ToInt16(x) - y) == ToInt16(x - y)
  {
    var k := (x + 32768) / 65536;
    assert x == ToInt16(x) + 65536 * k;
    AddMultiple(ToInt16(x) - y + 32768, k);
  }

  lemma AddMultiple(x: int, k: int)
    ensures (x + 65536 * k) % 65536 == x % 65536
  {
  }

  /** The field itself, once the digits and the room left for padding are known. */
  method PutField(
    sink: Sink, tmp: array<char>, i: nat, num: nat, spec: Spec, zeropad: bool, width0: Int16, precision: Int16)
    requires sink.Valid() && NumberSupported(num, spec)
    requires tmp != sink.buf && i <= tmp.Length
    requires Reverse(tmp[..i]) == Digits(Magnitude(num, spec), spec.base, spec.flags.small)
    requires zeropad <==> spec.flags.zeropad && !spec.flags.left
    requires precision == Max(spec.precision, i) && width0 == ToInt16(Room(num, spec))
    modifies sink, sink.buf
    ensures sink.Valid() && sink.out == old(sink.out) + NumberText(num, spec)
  {
    ghost var lead := if zeropad || spec.flags.left then "" else Fill(' ', PadCount(width0));
    var width1 := PutHead(sink, num, spec, zeropad, width0, lead);
    ghost var head := lead + SignText(num, spec) + PrefixText(num, spec);
    ghost var inner := if spec.flags.left then "" else Fill(if zeropad then '0' else ' ', PadCount(width1));
    var width2 := width1;
    if !spec.flags.left {
      width2 := PadField(sink, if zeropad then '0' else ' ', width1);
    }
    Associate(old(sink.out), head, inner);
    PutRest(sink, tmp, i, precision, width2, old(sink.out), head + inner);
    Assembled(num, spec, i, precision, zeropad, width0, width1, width2, lead, inner);
  }

  /** The pieces in the order they were written are the closed form. */
  lemma Assembled(
    num: nat, spec: Spec, i: nat, precision: Int16, zeropad: bool,
    width0: Int16, width1: Int16, width2: Int16, lead: seq<char>, inner: seq<char>)
    requires NumberSupported(num, spec)
    requires var digits := Digits(Magnitude(num, spec), spec.base, spec.flags.small); i == |digits|
    requires precision == Max(spec.precision, i) && width0 == ToInt16(Room(num, spec))
    requires zeropad <==> spec.flags.zeropad && !spec.flags.left
    requires width1 == if zeropad || spec.flags.left then width0 else AfterPad(width0)
    requires width2 == if spec.flags.left then width1 else AfterPad(width1)
    requires lead == if zeropad || spec.flags.left then "" else Fill(' ', PadCount(width0))
    requires inner == if spec.flags.left then "" else Fill(if zeropad then '0' else ' ', PadCount(width1))
    ensures NumberText(num, spec) ==
            lead + SignText(num, spec) + PrefixText(num, spec) + inner
            + Fill('0', precision - i) + Digits(Magnitude(num, spec), spec.base, spec.flags.small)
            + Fill(' ', PadCount(width2))
  {
    assert Fill('0', precision - i) == Fill('0', spec.precision - i);
  }

  /** Leading spaces, sign and prefix. */
  method PutHead(sink: Sink, num: nat, spec: Spec, zeropad: bool, width0: Int16, ghost lead: seq<char>)
    returns (width: Int16)
    requires sink.Valid() && spec.base in {8, 10, 16}
    requires lead == if zeropad || spec.flags.left then "" else Fill(' ', PadCount(width0))
    modifies sink, sink.buf
    ensures sink.Valid() && sink.out == old(sink.out) + (lead + SignText(num, spec) + PrefixText(num, spec))
    ensures width == if zeropad || spec.flags.left then width0 else AfterPad(width0)
  {
    width := width0;
    if !zeropad && !spec.flags.left {
      width := PadField(sink, ' ', width);
    }
    assert sink.out == old(sink.out) + lead;
    PutSign(sink, num, spec);
    PutPrefix(sink, num, spec);
    Associate(old(sink.out), lead, SignText(num, spec));
    Associate(old(sink.out), lead + SignText(num, spec), PrefixText(num, spec));
  }

  /** Extra zeros, digits and trailing spaces. */
  method PutRest(
    sink: Sink, tmp: array<char>, i: nat, precision: Int16, width: Int16,
    ghost before: seq<char>, ghost text: seq<char>)
    requires sink.Valid() && sink.out == before + text
    requires tmp != sink.buf && i <= tmp.Length && i <= precision
    modifies sink, sink.buf
    ensures sink.Valid()
    ensures sink.out ==
            before + (text + Fill('0', precision - i) + Reverse(old(tmp[..i])) + Fill(' ', PadCount(width)))
  {
    ghost var zeros, digits := Fill('0', precision - i), Reverse(tmp[..i]);
    ZeroFill(sink, i, precision);
    Associate(before, text, zeros);
    PutReversed(sink, tmp, i);
    Associate(before, text + zeros, digits);
    var rest := PadField(sink, ' ', width);
    Associate(before, text + zeros + digits, Fill(' ', PadCount(width)));
  }
}
