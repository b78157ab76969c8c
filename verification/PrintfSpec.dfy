/** Format specifications and the text that each conversion stands for, in closed form. */
module PrintfSpec {
  import opened PrintfDigits

  datatype FormatType =
    | NONE | WIDTH | PRECISION | CHAR | STR | PTR | PERCENT_CHAR | INVALID
    | LONG_LONG | ULONG | LONG | UBYTE | BYTE | USHORT | SHORT | UINT | INT
    | NRCHARS | SIZE_T | PTRDIFF

  /** The flag bits of a specification; `sign` and `small` are set by the conversion. */
  datatype Flags = Flags(
    zeropad: bool, sign: bool, plus: bool, space: bool, left: bool, small: bool, special: bool)

  const NO_FLAGS: Flags := Flags(false, false, false, false, false, false, false)
  const NO_QUALIFIER: char := 255 as char

  /** The 16-bit signed fields, and what assigning an int to one leaves. */
  type Int16 = x: int | -32768 <= x < 32768

  function ToInt16(x: int): (r: Int16)
    ensures -32768 <= x < 32768 ==> r == x
  {
    (x + 32768) % 65536 - 32768
  }

  datatype Spec = Spec(typ: FormatType, flags: Flags, base: nat, qualifier: char, fieldWidth: Int16, precision: Int16)

  const LL: nat := 0x1_0000_0000_0000_0000

  function Max(a: int, b: int): int {
    if a > b then a else b
  }

  function Fill(c: char, n: int): seq<char> {
    seq(if n > 0 then n else 0, _ => c)
  }

  // ---- Numbers ----

  predicate Negative(num: nat, spec: Spec) {
    spec.flags.sign && num >= LL / 2
  }

  function Magnitude(num: nat, spec: Spec): nat
    requires num < LL
  {
    if Negative(num, spec) then LL - num else num
  }

  function SignText(num: nat, spec: Spec): seq<char> {
    if !spec.flags.sign then ""
    else if num >= LL / 2 then "-"
    else if spec.flags.plus then "+"
    else if spec.flags.space then " "
    else ""
  }

  /** "0x" for hexadecimal, even for zero; "0" for octal, except for zero. */
  function PrefixText(num: nat, spec: Spec): seq<char> {
    if !spec.flags.special then ""
    else if spec.base == 16 then ['0', Locase('X', spec.flags.small)]
    else if spec.base == 8 && num != 0 then "0"
    else ""
  }

  /** Values and bases the printer supports: base 10 only below 10^8. */
  predicate NumberSupported(num: nat, spec: Spec) {
    && num < LL
    && spec.base in {8, 10, 16}
    && (spec.base == 10 ==> Magnitude(num, spec) < 100_000_000)
  }

  /** What sign, prefix, extra zeros and digits take. */
  function Contents(num: nat, spec: Spec): nat
    requires NumberSupported(num, spec)
  {
    |SignText(num, spec)| + |PrefixText(num, spec)|
    + Max(|Digits(Magnitude(num, spec), spec.base, spec.flags.small)|, spec.precision)
  }

  /** Room left in the field, which may be negative. */
  function Room(num: nat, spec: Spec): int
    requires NumberSupported(num, spec)
  {
    spec.fieldWidth - Contents(num, spec)
  }

  /** How many characters `while (--width >= 0)` writes: the counter has 16 bits and wraps. */
  function PadCount(width: Int16): nat {
    if width == -32768 then 32768 else if width > 0 then width else 0
  }

  /** And where it leaves the counter. */
  function AfterPad(width: Int16): Int16 {
    if width == -32768 || width >= 0 then -1 else width - 1
  }

  /** Spaces, sign, prefix, padding, zeros, digits, spaces, with one and the same counter behind
      all three runs of padding. */
  function NumberText(num: nat, spec: Spec): seq<char>
    requires NumberSupported(num, spec)
  {
    var (left, zeropad) := (spec.flags.left, spec.flags.zeropad && !spec.flags.left);
    var digits := Digits(Magnitude(num, spec), spec.base, spec.flags.small);
    var width0 := ToInt16(Room(num, spec));
    var width1 := if zeropad || left then width0 else AfterPad(width0);
    var width2 := if left then width1 else AfterPad(width1);
    (if zeropad || left then "" else Fill(' ', PadCount(width0)))
    + SignText(num, spec) + PrefixText(num, spec)
    + (if left then "" else Fill(if zeropad then '0' else ' ', PadCount(width1)))
    + Fill('0', spec.precision - |digits|) + digits
    + Fill(' ', PadCount(width2))
  }

  /** The padding loops that run, each of which takes at least one off the counter. */
  function PadLoops(spec: Spec): nat {
    if spec.flags.left then 1 else if spec.flags.zeropad then 2 else 3
  }

  /** The counter of the padding loops never wraps, or wraps right back to having no room. */
  predicate FieldFits(num: nat, spec: Spec)
    requires NumberSupported(num, spec)
  {
    Room(num, spec) >= PadLoops(spec) - 32768 || Room(num, spec) <= -65536
  }

  /** The field as intended: padding on the left unless the left flag is given, and then zeros
      take its place only without that flag. */
  function FieldText(num: nat, spec: Spec): seq<char>
    requires NumberSupported(num, spec)
  {
    var room := Room(num, spec);
    var zeropad := spec.flags.zeropad && !spec.flags.left;
    var digits := Digits(Magnitude(num, spec), spec.base, spec.flags.small);
    (if zeropad || spec.flags.left then "" else Fill(' ', room))
    + SignText(num, spec) + PrefixText(num, spec)
    + (if zeropad then Fill('0', room) else "")
    + Fill('0', spec.precision - |digits|) + digits
    + (if spec.flags.left then Fill(' ', room) else "")
  }

  /** All the padding that the loops write when they start from `width0`. */
  function Padding(width0: Int16, left: bool, zeropad: bool): nat {
    if left then PadCount(width0)
    else if zeropad then PadCount(width0) + PadCount(AfterPad(width0))
    else PadCount(width0) + PadCount(AfterPad(width0)) + PadCount(AfterPad(AfterPad(width0)))
  }

  /** It is the room there is exactly when the counter does not wrap. */
  lemma PaddingFits(room: int, left: bool, zeropad: bool)
    requires -65538 <= room < 32768
    ensures Padding(ToInt16(room), left, zeropad) == Max(room, 0) <==>
            room >= (if left then 1 else if zeropad then 2 else 3) - 32768 || room <= -65536
  {
    if room < -32768 { assert ToInt16(room) == room + 65536; }
  }

  lemma {:induction false} PowerSum(base: nat, a: nat, b: nat)
    ensures Power(base, a + b) == Power(base, a) * Power(base, b)
  {
    if a > 0 {
      PowerSum(base, a - 1, b);
      assert base * (Power(base, a - 1) * Power(base, b)) == (base * Power(base, a - 1)) * Power(base, b);
    }
  }

  /** No supported number has more than 22 digits. */
  lemma DigitsFit(n: nat, base: nat)
    requires n < LL && base in {8, 10, 16} && (base == 10 ==> n < 100_000_000)
    ensures |RevDigits(n, base)| <= 22
  {
    if base == 10 {
      DigitCount(n, 10, 8);
    } else {
      assert Power(8, 11) == 0x2_0000_0000;
      PowerSum(8, 11, 11);
      assert Power(16, 11) == 0x1000_0000_0000;
      PowerSum(16, 11, 11);
      DigitCount(n, base, 22);
    }
  }

  lemma RoomBounds(num: nat, spec: Spec)
    requires NumberSupported(num, spec)
    ensures -65538 <= Room(num, spec) < 32768
  {
    DigitsFit(Magnitude(num, spec), spec.base);
    RevDigitsValue(Magnitude(num, spec), spec.base);
  }

  lemma NumberTextSize(num: nat, spec: Spec)
    requires NumberSupported(num, spec)
    ensures |NumberText(num, spec)| ==
            Contents(num, spec) + Padding(ToInt16(Room(num, spec)), spec.flags.left, spec.flags.zeropad)
  {
  }

  /** The field is as wide as asked, or as its contents need, exactly when it fits the counter. */
  lemma NumberTextLength(num: nat, spec: Spec)
    requires NumberSupported(num, spec)
    ensures |NumberText(num, spec)| == Max(spec.fieldWidth, Contents(num, spec)) <==> FieldFits(num, spec)
  {
    NumberTextSize(num, spec);
    RoomBounds(num, spec);
    PaddingFits(Room(num, spec), spec.flags.left, spec.flags.zeropad);
  }

  /** A precision of 32767 without a width: 32768 spaces that nobody asked for. */
  lemma WidePrecisionWraps(num: nat, spec: Spec)
    requires NumberSupported(num, spec) && spec.flags == NO_FLAGS
    requires spec.fieldWidth == -1 && spec.precision == 32767
    ensures !FieldFits(num, spec) && |NumberText(num, spec)| == 65535
  {
    DigitsFit(num, spec.base);
    NumberTextSize(num, spec);
  }

  /** Where it fits, the loops write the field as intended. */
  lemma NumberTextFits(num: nat, spec: Spec)
    requires NumberSupported(num, spec) && FieldFits(num, spec)
    ensures NumberText(num, spec) == FieldText(num, spec)
  {
    RoomBounds(num, spec);
    OnePadding(Room(num, spec), spec.flags.left, spec.flags.zeropad);
  }

  lemma OnePadding(room: int, left: bool, zeropad: bool)
    requires -65538 <= room < 32768
    requires room >= (if left then 1 else if zeropad then 2 else 3) - 32768 || room <= -65536
    ensures var width0 := ToInt16(room);
            && Fill(' ', PadCount(width0)) == Fill(' ', room) && Fill('0', PadCount(width0)) == Fill('0', room)
            && (!left ==> PadCount(AfterPad(width0)) == 0)
            && (!left && !zeropad ==> PadCount(AfterPad(AfterPad(width0))) == 0)
  {
    if room < -32768 { assert ToInt16(room) == room + 65536; }
  }

  /** Leading zeros do not change what digits read as. */
  lemma {:induction false} ReadZeros(n: int, s: seq<char>, base: nat)
    ensures Read(Fill('0', n) + s, base) == Read(s, base)
    decreases |s|, n
  {
    var all := Fill('0', n) + s;
    if s == [] {
      if n > 0 {
        assert all[..|all| - 1] == Fill('0', n - 1) + s;
        ReadZeros(n - 1, s, base);
      } else {
        assert all == s;
      }
    } else {
      assert all[..|all| - 1] == Fill('0', n) + s[..|s| - 1];
      ReadZeros(n, s[..|s| - 1], base);
    }
  }

  /** Nothing but digits of the base, letters in the case asked for. */
  predicate DigitText(s: seq<char>, base: nat, small: bool) {
    forall i | 0 <= i < |s| :: s[i] == DigitChar(DigitOf(s[i]), small) && DigitOf(s[i]) < base
  }

  /** Reading a field that fits: spaces, then sign and prefix, then nothing but digits that read
      as |num|, then spaces; never spaces on both sides, none on the left of a left-justified or
      zero-padded field, and no more digits than the number or the precision calls for unless
      zeros fill the field. */
  lemma NumberTextShape(num: nat, spec: Spec) returns (lead: seq<char>, body: seq<char>, trail: seq<char>)
    requires NumberSupported(num, spec) && FieldFits(num, spec)
    ensures NumberText(num, spec) == lead + SignText(num, spec) + PrefixText(num, spec) + body + trail
    ensures lead == Fill(' ', |lead|) && trail == Fill(' ', |trail|)
    ensures spec.flags.left || spec.flags.zeropad ==> lead == ""
    ensures !spec.flags.left ==> trail == ""
    ensures |body| > 0 && |body| >= spec.precision
    ensures !spec.flags.zeropad || spec.flags.left ==>
              |body| == Max(|Digits(Magnitude(num, spec), spec.base, spec.flags.small)|, spec.precision)
    ensures Read(body, spec.base) == Magnitude(num, spec) && DigitText(body, spec.base, spec.flags.small)
  {
    NumberTextFits(num, spec);
    var room := Room(num, spec);
    lead := if spec.flags.zeropad || spec.flags.left then "" else Fill(' ', room);
    trail := if spec.flags.left then Fill(' ', room) else "";
    var pad := if spec.flags.zeropad && !spec.flags.left then room else 0;
    body := FieldBody(num, spec, pad, lead, trail);
  }

  lemma FieldBody(num: nat, spec: Spec, pad: int, lead: seq<char>, trail: seq<char>) returns (body: seq<char>)
    requires NumberSupported(num, spec)
    requires pad == if spec.flags.zeropad && !spec.flags.left then Room(num, spec) else 0
    requires lead == if spec.flags.zeropad || spec.flags.left then "" else Fill(' ', Room(num, spec))
    requires trail == if spec.flags.left then Fill(' ', Room(num, spec)) else ""
    ensures FieldText(num, spec) == lead + SignText(num, spec) + PrefixText(num, spec) + body + trail
    ensures |body| > 0
    ensures |body| == Max(pad, 0) + Max(|Digits(Magnitude(num, spec), spec.base, spec.flags.small)|, spec.precision)
    ensures Read(body, spec.base) == Magnitude(num, spec) && DigitText(body, spec.base, spec.flags.small)
  {
    var digits := Digits(Magnitude(num, spec), spec.base, spec.flags.small);
    var extra := spec.precision - |digits|;
    body := DigitsWithZeros(Magnitude(num, spec), spec.base, spec.flags.small, pad, extra);
    var head := lead + SignText(num, spec) + PrefixText(num, spec);
    assert FieldText(num, spec) == head + Fill('0', pad) + Fill('0', extra) + digits + trail;
    FieldRegroups(head, Fill('0', pad), Fill('0', extra), digits, trail);
  }

  lemma FieldRegroups(head: seq<char>, inner: seq<char>, zeros: seq<char>, digits: seq<char>, trail: seq<char>)
    ensures head + inner + zeros + digits + trail == head + (inner + (zeros + digits)) + trail
  {
    Associate(head, inner, zeros);
    Associate(head, inner + zeros, digits);
    Associate(inner, zeros, digits);
  }

  lemma DigitsWithZeros(n: nat, base: nat, small: bool, pad: int, extra: int) returns (body: seq<char>)
    requires 1 < base <= 16
    ensures body == Fill('0', pad) + (Fill('0', extra) + Digits(n, base, small))
    ensures |body| == Max(pad, 0) + Max(extra, 0) + |Digits(n, base, small)| > 0
    ensures Read(body, base) == n && DigitText(body, base, small)
  {
    var digits := Digits(n, base, small);
    body := Fill('0', pad) + (Fill('0', extra) + digits);
    DigitsRead(n, base, small);
    ReadZeros(extra, digits, base);
    ReadZeros(pad, Fill('0', extra) + digits, base);
    DigitsAreDigits(n, base, small);
    ZerosAreDigits(extra, digits, base, small);
    ZerosAreDigits(pad, Fill('0', extra) + digits, base, small);
  }

  lemma ZerosAreDigits(n: int, s: seq<char>, base: nat, small: bool)
    requires base > 0 && DigitText(s, base, small)
    ensures DigitText(Fill('0', n) + s, base, small)
  {
    DigitCharReads(0, small);
  }

  lemma DigitsAreDigits(n: nat, base: nat, small: bool)
    requires 1 < base <= 16
    ensures |Digits(n, base, small)| > 0 && DigitText(Digits(n, base, small), base, small)
  {
    RevDigitsValue(n, base);
    var rs, ds := RevDigits(n, base), Digits(n, base, small);
    forall i | 0 <= i < |ds|
      ensures ds[i] == DigitChar(DigitOf(ds[i]), small) && DigitOf(ds[i]) < base
    {
      DigitCharReads(rs[|rs| - 1 - i], small);
    }
  }

  lemma Associate(a: seq<char>, b: seq<char>, c: seq<char>)
    ensures a + b + c == a + (b + c)
  {
  }

  // ---- Strings and characters ----

  const NULL_TEXT: seq<char> := "(null)"

  /** strnlen with a 16-bit precision converted to size_t: a negative one is no limit. */
  function Shown(s: seq<char>, precision: int): nat {
    if 0 <= precision < |s| then precision else |s|
  }

  /** A width of -32768 wraps when the first padding loop steps past it. */
  function StringText(s: seq<char>, spec: Spec): seq<char> {
    var text := s[..Shown(s, spec.precision)];
    var pad := Fill(' ', spec.fieldWidth - |text|);
    if spec.flags.left then text + pad
    else pad + text + (if spec.fieldWidth == -32768 then Fill(' ', 32767 - |text|) else "")
  }

  lemma StringTextLength(s: seq<char>, spec: Spec)
    ensures var n := Shown(s, spec.precision);
            |StringText(s, spec)| == Max(spec.fieldWidth, n)
            <==> spec.flags.left || spec.fieldWidth != -32768 || n >= 32767
  {
  }

  /** How many spaces `while (--width > 0)` writes, and where it leaves the counter. */
  function CharPads(width: Int16): nat {
    if width == -32768 then 32767 else if width > 1 then width - 1 else 0
  }

  function AfterCharPad(width: Int16): Int16 {
    if width == -32768 || width > 0 then 0 else width - 1
  }

  function CharText(c: char, spec: Spec): seq<char> {
    if spec.flags.left then [c] + Fill(' ', CharPads(spec.fieldWidth))
    else Fill(' ', CharPads(spec.fieldWidth)) + [c] + Fill(' ', CharPads(AfterCharPad(spec.fieldWidth)))
  }

  lemma CharTextLength(c: char, spec: Spec)
    ensures |CharText(c, spec)| == Max(spec.fieldWidth, 1)
            <==> spec.fieldWidth != -32768 && (spec.flags.left || spec.fieldWidth != -32767)
  {
  }
}
