/** What each conversion prints, told from its characters and its argument alone. */
module PrintfConversions {
  import Bits
  import opened PrintfDigits
  import opened PrintfSpec
  import opened PrintfDecode
  import opened PrintfRender
  import opened PrintfFormats
  import opened Options

  /** The number congruent to v modulo m from `low` on: what a C integer type of m values holds. */
  function Wrap(v: int, low: int, m: nat): int
    requires m > 0
  {
    (v - low) % m + low
  }

  // ---- Arguments ----

  /** A 64-bit word read as a number. */
  function WordValue(num: nat, signed: bool): int {
    if signed && num >= 0x8000_0000_0000_0000 then num - 0x1_0000_0000_0000_0000 else num
  }

  /** Each conversion type hands the printer the argument's value in its own C type. */
  lemma ArgumentValue(t: FormatType, v: int)
    requires IsNumber(t)
    ensures t in {INT, LONG} ==> WordValue(NumArg(t, v), true) == Wrap(v, -0x8000_0000, 0x1_0000_0000)
    ensures t == SHORT ==> WordValue(NumArg(t, v), true) == Wrap(v, -0x8000, 0x1_0000)
    ensures t == BYTE ==> WordValue(NumArg(t, v), true) == Wrap(v, -0x80, 0x100)
    ensures t == LONG_LONG ==>
              && WordValue(NumArg(t, v), true) == Wrap(v, -0x8000_0000_0000_0000, 0x1_0000_0000_0000_0000)
              && WordValue(NumArg(t, v), false) == Wrap(v, 0, 0x1_0000_0000_0000_0000)
    ensures t in {UINT, ULONG, SIZE_T} ==>
              forall signed :: WordValue(NumArg(t, v), signed) == Wrap(v, 0, 0x1_0000_0000)
    ensures t == USHORT ==> forall signed :: WordValue(NumArg(t, v), signed) == Wrap(v, 0, 0x1_0000)
    ensures t == UBYTE ==> forall signed :: WordValue(NumArg(t, v), signed) == Wrap(v, 0, 0x100)
  {
    if t in {INT, LONG, SHORT, BYTE} {
      Extended(v, if t == SHORT then 16 else if t == BYTE then 8 else 32);
    } else if t == LONG_LONG {
      WordOfWrap(v);
    }
  }

  lemma Extended(v: int, bits: nat)
    requires bits in {8, 16, 32}
    ensures WordValue(SignExtend(v, bits), true) ==
            if bits == 8 then Wrap(v, -0x80, 0x100)
            else if bits == 16 then Wrap(v, -0x8000, 0x1_0000)
            else Wrap(v, -0x8000_0000, 0x1_0000_0000)
  {
  }

  lemma WordOfWrap(v: int)
    ensures WordValue(v % LL, true) == Wrap(v, -0x8000_0000_0000_0000, 0x1_0000_0000_0000_0000)
  {
    var q, r := v / LL, v % LL;
    var half := 0x8000_0000_0000_0000;
    assert v == q * LL + r;
    assert v + half == (if r < half then q else q + 1) * LL + (if r < half then r + half else r - half);
    RemainderOf(v + half, LL, if r < half then q else q + 1, if r < half then r + half else r - half);
  }

  lemma RemainderOf(x: int, m: nat, q: int, r: int)
    requires m > 0 && x == q * m + r && 0 <= r < m
    ensures x % m == r
  {
    var q' := x / m;
    assert x == q' * m + x % m;
    assert (q - q') * m == x % m - r;
    if q > q' { Bits.MulMonotone(1, q - q', m); }
    if q < q' { Bits.MulMonotone(1, q' - q, m); }
  }

  /** An argument in the range of its type is printed as it is. */
  lemma IntPrinted(v: int)
    ensures -0x8000_0000 <= v < 0x8000_0000 ==> WordValue(NumArg(INT, v), true) == v
    ensures 0 <= v < 0x1_0000_0000 ==> WordValue(NumArg(UINT, v), false) == v
  {
    ArgumentValue(INT, v);
    ArgumentValue(UINT, v);
  }

  // ---- Flags ----

  /** Each flag character sets its own flag and no other. */
  lemma FlagSet(f: Flags, c: char)
    ensures SetFlag(f, c) == Flags(
              f.zeropad || c == '0', f.sign, f.plus || c == '+', f.space || c == ' ',
              f.left || c == '-', f.small, f.special || c == '#')
  {
  }

  lemma InCons(c: char, first: char, rest: seq<char>)
    ensures c in [first] + rest <==> c == first || c in rest
  {
  }

  /** So the flags of a directive are the characters that stand there, in any order and number. */
  lemma {:induction false} FoldedFlags(flags: seq<char>, f: Flags)
    ensures FoldFlags(flags, f) == Flags(
              f.zeropad || '0' in flags, f.sign, f.plus || '+' in flags, f.space || ' ' in flags,
              f.left || '-' in flags, f.small, f.special || '#' in flags)
  {
    if flags != [] {
      var c, rest := flags[0], flags[1..];
      assert flags == [c] + rest;
      FlagSet(f, c);
      FoldedFlags(rest, SetFlag(f, c));
      InCons('0', c, rest);
      InCons('+', c, rest);
      InCons(' ', c, rest);
      InCons('-', c, rest);
      InCons('#', c, rest);
    }
  }

  // ---- Directives told by their characters ----

  /** A width or precision of decimal digits, or `*`, or none. */
  predicate FieldSpelled(f: Field) {
    f.Number? ==> f.digits != "" && forall i | 0 <= i < |f.digits| :: '0' <= f.digits[i] <= '9'
  }

  /** Flags, width and precision as C writes them; a width has no leading zero, which is a flag. */
  predicate Spelled(d: Directive) {
    && (forall i | 0 <= i < |d.flags| :: d.flags[i] in {'-', '+', ' ', '#', '0'})
    && FieldSpelled(d.width) && (d.width.Number? ==> d.width.digits[0] != '0')
    && FieldSpelled(d.precision) && (!d.dot ==> d.precision.Absent?)
  }

  /** No qualifier, one of `L`, `z`, `Z` and `t`, or a lone `h` or `l` and the character it swallows. */
  predicate Qualified(q: Qualifier) {
    match q
    case NoQualifier => true
    case Plain(c) => c in {'L', 'z', 'Z', 't'}
    case Lone(c, swallowed) => c in {'h', 'l'} && swallowed !in {c, END}
  }

  /** A conversion character that cannot be taken for anything in front of it. */
  predicate Plainly(c: char) {
    && c !in {'-', '+', ' ', '#', '.', '*', END} && !('0' <= c <= '9')
    && c !in {'h', 'l', 'L', 'z', 'Z', 't'}
  }

  lemma SpelledOk(d: Directive)
    requires Spelled(d) && Qualified(d.qualifier) && Plainly(d.conv)
    ensures DirectiveOk(d) && !Hangs(d)
  {
    assert !IsFlag(At(SpellConversion(d), 0)) && !IsDigit(At(SpellConversion(d), 0));
    assert At(SpellConversion(d), 0) !in {'.', '*'};
    assert !IsFlag(At(SpellPrecision(d), 0)) && !IsDigit(At(SpellPrecision(d), 0));
    if d.width.Number? { assert At(SpellWidth(d), 0) == d.width.digits[0]; }
  }

  /** The value of a width or precision, -1 for none, and the arguments behind it: both are kept in
      16 bits. */
  predicate Takes(f: Field, args: seq<Arg>, value: int, rest: seq<Arg>) {
    match f
    case Absent => value == -1 && rest == args
    case Number(ds) => value == Wrap(Read(ds, 10), -0x8000, 0x1_0000) && rest == args
    case Star =>
      args != [] && args[0].IntArg? && value == Wrap(args[0].v, -0x8000, 0x1_0000) && rest == args[1..]
  }

  lemma FieldTaken(f: Field, args: seq<Arg>, value: int, rest: seq<Arg>)
    requires Takes(f, args, value, rest)
    ensures -0x8000 <= value < 0x8000 && FieldValue(f, args) == Some((value, rest))
  {
  }

  /** Left justification: the flag, or a negative `*` width. */
  predicate Left(d: Directive, w: int) {
    '-' in d.flags || (d.width.Star? && w < 0)
  }

  /** The width that counts: a negative `*` width without its sign, as far as 16 bits allow. */
  function Width(d: Directive, w: int): int {
    if d.width.Star? && -0x8000 < w < 0 then -w else w
  }

  /** The precision that counts: none, or not below zero. */
  function Precision(d: Directive, p: int): int {
    if d.precision.Absent? then -1 else if p < 0 then 0 else p
  }

  /** The specification in front of the conversion, from the characters and the two numbers. */
  lemma SpecSpelled(d: Directive, w: Int16, p: Int16)
    ensures WithPrecisionOf(d, WidthSpec(d, w), p) == Spec(
              NONE,
              Flags('0' in d.flags, false, '+' in d.flags, ' ' in d.flags, Left(d, w), false, '#' in d.flags),
              10, NO_QUALIFIER, Width(d, w), Precision(d, p))
  {
    FoldedFlags(d.flags, NO_FLAGS);
  }

  /** From the two numbers on, a directive is its last step. */
  lemma MeaningOf(d: Directive, args: seq<Arg>, w: int, args1: seq<Arg>, p: int, args2: seq<Arg>, spec: Spec)
    requires Spelled(d) && Qualified(d.qualifier) && Plainly(d.conv)
    requires Takes(d.width, args, w, args1) && Takes(d.precision, args1, p, args2)
    requires -0x8000 <= w < 0x8000 && -0x8000 <= p < 0x8000
    requires spec == Converted(d, WithPrecisionOf(d, WidthSpec(d, w), p))
    ensures var r := TokenStep(spec, "", args2);
            DirectiveMeaning(d, args) == if r.None? then None else Some((r.value.text + Unread(d), r.value.args))
  {
    SpelledOk(d);
    FieldTaken(d.width, args, w, args1);
    FieldTaken(d.precision, args1, p, args2);
  }

  // ---- Integers ----

  /** The number that an integer conversion prints: the argument in the C type the qualifier names,
      where size_t and ssize_t are both unsigned here. */
  function IntegerValue(q: Qualifier, signed: bool, v: int): int {
    match q
    case NoQualifier => if signed then Wrap(v, -0x8000_0000, 0x1_0000_0000) else Wrap(v, 0, 0x1_0000_0000)
    case Plain(c) => if c == 'L' then LongLong(signed, v) else Wrap(v, 0, 0x1_0000_0000)
    case Lone(c, _) =>
      if c == 'l' then LongLong(signed, v)
      else if signed then Wrap(v, -0x80, 0x100)
      else Wrap(v, 0, 0x100)
  }

  function LongLong(signed: bool, v: int): int {
    if signed then Wrap(v, -0x8000_0000_0000_0000, 0x1_0000_0000_0000_0000) else Wrap(v, 0, 0x1_0000_0000_0000_0000)
  }

  /** The same by the decoded qualifier: `H` and `L` stand for a lone `h` and `l`. */
  function DecodedValue(q: char, signed: bool, v: int): int {
    if q == 'L' then LongLong(signed, v)
    else if q in {'z', 'Z'} then Wrap(v, 0, 0x1_0000_0000)
    else if q == 'H' then (if signed then Wrap(v, -0x80, 0x100) else Wrap(v, 0, 0x100))
    else if q == 'h' then (if signed then Wrap(v, -0x8000, 0x1_0000) else Wrap(v, 0, 0x1_0000))
    else if signed then Wrap(v, -0x8000_0000, 0x1_0000_0000)
    else Wrap(v, 0, 0x1_0000_0000)
  }

  /** The type that a qualifier and signedness select, by the value it gives. */
  lemma TypeSelected(spec: Spec, v: int)
    ensures var q, signed, t := spec.qualifier, spec.flags.sign, Integer(spec).typ;
            && Integer(spec) == spec.(typ := t)
            && (q == 't' ==> t == PTRDIFF)
            && (q != 't' ==> IsNumber(t) && WordValue(NumArg(t, v), signed) == DecodedValue(q, signed, v))
  {
    if spec.qualifier != 't' { ArgumentValue(Integer(spec).typ, v); }
  }

  function Abs(x: int): nat {
    if x < 0 then -x else x
  }

  /** Sign and size of a supported number, and its sign and prefix characters. */
  lemma NumberParts(num: nat, spec: Spec, value: int)
    requires NumberSupported(num, spec) && value == WordValue(num, spec.flags.sign)
    ensures Magnitude(num, spec) == Abs(value)
    ensures SignText(num, spec) ==
            if !spec.flags.sign then ""
            else if value < 0 then "-" else if spec.flags.plus then "+" else if spec.flags.space then " " else ""
    ensures PrefixText(num, spec) ==
            if !spec.flags.special then ""
            else if spec.base == 16 then (if spec.flags.small then "0x" else "0X")
            else if spec.base == 8 && value != 0 then "0"
            else ""
  {
  }

  /** Nothing but digits of the base, lower case for `x`. */
  predicate DigitsOf(s: seq<char>, base: nat, small: bool) {
    forall i | 0 <= i < |s| ::
      || ('0' <= s[i] <= '9' && (s[i] - '0') as nat < base)
      || (base == 16 && small && 'a' <= s[i] <= 'f')
      || (base == 16 && !small && 'A' <= s[i] <= 'F')
  }

  lemma DigitTextRead(s: seq<char>, base: nat, small: bool)
    requires base in {8, 10, 16} && DigitText(s, base, small)
    ensures DigitsOf(s, base, small)
  {
    forall i | 0 <= i < |s|
      ensures || ('0' <= s[i] <= '9' && (s[i] - '0') as nat < base)
              || (base == 16 && small && 'a' <= s[i] <= 'f')
              || (base == 16 && !small && 'A' <= s[i] <= 'F')
    {
      OneDigitRead(s[i], base, small);
    }
  }

  lemma OneDigitRead(c: char, base: nat, small: bool)
    requires c == DigitChar(DigitOf(c), small) && DigitOf(c) < base && base in {8, 10, 16}
    ensures || ('0' <= c <= '9' && (c - '0') as nat < base)
            || (base == 16 && small && 'a' <= c <= 'f')
            || (base == 16 && !small && 'A' <= c <= 'F')
  {
  }

  /** `n` takes k digits in the base. */
  predicate HasDigits(n: nat, base: nat, k: nat) {
    k >= 1 && n < Power(base, k) && (k > 1 ==> Power(base, k - 1) <= n)
  }

  lemma {:induction false} PowerGrows(base: nat, j: nat, k: nat)
    requires base > 1 && j <= k
    ensures 0 < Power(base, j) <= Power(base, k)
  {
    if k > 0 {
      PowerGrows(base, if j < k then j else k - 1, k - 1);
      Bits.MulMonotone(1, base, Power(base, k - 1));
    }
  }

  /** And just as many as the digit generator makes. */
  lemma DigitsCounted(n: nat, base: nat, small: bool, k: nat)
    requires base > 1 && HasDigits(n, base, k)
    ensures |Digits(n, base, small)| == k
  {
    var m := |RevDigits(n, base)|;
    DigitsSuffice(n, base);
    DigitsNeeded(n, base);
    if m < k { PowerGrows(base, m, k - 1); }
    if k < m { PowerGrows(base, k, m - 1); }
  }

  /** A number field that fits, told without the digit generator: padding, sign, prefix, digits. */
  lemma NumberShape(num: nat, spec: Spec, value: int, k: nat)
    returns (lead: seq<char>, body: seq<char>, trail: seq<char>)
    requires NumberSupported(num, spec) && FieldFits(num, spec) && value == WordValue(num, spec.flags.sign)
    requires HasDigits(Abs(value), spec.base, k)
    ensures NumberText(num, spec) == lead + SignText(num, spec) + PrefixText(num, spec) + body + trail
    ensures lead == Fill(' ', |lead|) && trail == Fill(' ', |trail|)
    ensures (spec.flags.left || spec.flags.zeropad ==> lead == "") && (!spec.flags.left ==> trail == "")
    ensures Read(body, spec.base) == Abs(value) && DigitsOf(body, spec.base, spec.flags.small)
    ensures spec.flags.left || !spec.flags.zeropad ==> |body| == Max(k, spec.precision)
    ensures |NumberText(num, spec)| ==
            Max(spec.fieldWidth, |SignText(num, spec)| + |PrefixText(num, spec)| + Max(k, spec.precision))
  {
    NumberParts(num, spec, value);
    DigitsCounted(Magnitude(num, spec), spec.base, spec.flags.small, k);
    lead, body, trail := NumberTextShape(num, spec);
    DigitTextRead(body, spec.base, spec.flags.small);
    NumberTextLength(num, spec);
  }

  function Base(conv: char): nat {
    if conv == 'o' then 8 else if conv in {'x', 'X'} then 16 else 10
  }

  /** The sign: only `d` and `i` have one. */
  function SignShown(d: Directive, value: int): seq<char> {
    if d.conv !in {'d', 'i'} then ""
    else if value < 0 then "-" else if '+' in d.flags then "+" else if ' ' in d.flags then " " else ""
  }

  /** The prefix: on request, and none in front of an octal zero. */
  function PrefixShown(d: Directive, value: int): seq<char> {
    if '#' !in d.flags then ""
    else if d.conv == 'x' then "0x"
    else if d.conv == 'X' then "0X"
    else if d.conv == 'o' && value != 0 then "0"
    else ""
  }

  /** The specification an integer directive decodes to, and the value its type reads. */
  lemma IntegerSpec(d: Directive, w: Int16, p: Int16, v: int, spec: Spec)
    requires Qualified(d.qualifier) && d.qualifier != Plain('t') && d.conv in {'d', 'i', 'u', 'o', 'x', 'X'}
    requires spec == Converted(d, WithPrecisionOf(d, WidthSpec(d, w), p))
    ensures spec.base == Base(d.conv) && spec.fieldWidth == Width(d, w) && spec.precision == Precision(d, p)
    ensures spec.flags ==
            Flags('0' in d.flags, d.conv in {'d', 'i'}, '+' in d.flags, ' ' in d.flags, Left(d, w),
                  d.conv == 'x', '#' in d.flags)
    ensures IsNumber(spec.typ)
    ensures WordValue(NumArg(spec.typ, v), spec.flags.sign) == IntegerValue(d.qualifier, d.conv in {'d', 'i'}, v)
  {
    SpecSpelled(d, w, p);
    var code := QualifierCode(d.qualifier);
    var flags := Flags('0' in d.flags, d.conv in {'d', 'i'}, '+' in d.flags, ' ' in d.flags, Left(d, w),
                       d.conv == 'x', '#' in d.flags);
    var before := Spec(NONE, flags, Base(d.conv), code, Width(d, w), Precision(d, p));
    assert spec == Integer(before);
    TypeSelected(before, v);
  }

  /** The counter of the padding loops does not wrap: see `PrintfSpec.FieldFits`. */
  predicate RoomFits(d: Directive, w: int, room: int) {
    room >= (if Left(d, w) then 1 else if '0' in d.flags then 2 else 3) - 32768 || room <= -65536
  }

  lemma IntegerFits(d: Directive, w: Int16, p: Int16, num: nat, spec: Spec, value: int, k: nat)
    requires d.conv in {'d', 'i', 'u', 'o', 'x', 'X'} && spec.base == Base(d.conv)
    requires spec.fieldWidth == Width(d, w) && spec.precision == Precision(d, p)
    requires spec.flags ==
             Flags('0' in d.flags, d.conv in {'d', 'i'}, '+' in d.flags, ' ' in d.flags, Left(d, w),
                   d.conv == 'x', '#' in d.flags)
    requires NumberSupported(num, spec) && value == WordValue(num, spec.flags.sign)
    requires HasDigits(Abs(value), spec.base, k)
    requires var contents := |SignShown(d, value)| + |PrefixShown(d, value)| + Max(k, Precision(d, p));
             RoomFits(d, w, Width(d, w) - contents)
    ensures SignText(num, spec) == SignShown(d, value) && PrefixText(num, spec) == PrefixShown(d, value)
    ensures FieldFits(num, spec)
  {
    NumberParts(num, spec, value);
    DigitsCounted(Magnitude(num, spec), spec.base, spec.flags.small, k);
  }

  /** An integer directive, for every choice of flags, width, precision, qualifier and argument:
      it takes its arguments and prints spaces, the sign, the prefix, digits that read as the
      value, and spaces. Padding is spaces on the left, zeros there with `0`, spaces on the right
      with `-`; the whole is as wide as asked, or as sign, prefix and the larger of digits and
      precision need. */
  lemma IntegerMeans(
    d: Directive, args: seq<Arg>, w: int, args1: seq<Arg>, p: int, args2: seq<Arg>, v: int, rest: seq<Arg>,
    value: int, k: nat)
    returns (lead: seq<char>, body: seq<char>, trail: seq<char>)
    requires Spelled(d) && Qualified(d.qualifier) && d.qualifier != Plain('t')
    requires d.conv in {'d', 'i', 'u', 'o', 'x', 'X'}
    requires Takes(d.width, args, w, args1) && Takes(d.precision, args1, p, args2)
    requires args2 == [IntArg(v)] + rest
    requires value == IntegerValue(d.qualifier, d.conv in {'d', 'i'}, v)
    requires Base(d.conv) == 10 ==> -100_000_000 < value < 100_000_000
    requires HasDigits(Abs(value), Base(d.conv), k)
    requires var contents := |SignShown(d, value)| + |PrefixShown(d, value)| + Max(k, Precision(d, p));
             RoomFits(d, w, Width(d, w) - contents)
    ensures DirectiveOk(d)
    ensures var text := lead + SignShown(d, value) + PrefixShown(d, value) + body + trail;
            && DirectiveMeaning(d, args) == Some((text, rest))
            && |text| == Max(Width(d, w),
                             |SignShown(d, value)| + |PrefixShown(d, value)| + Max(k, Precision(d, p)))
    ensures lead == Fill(' ', |lead|) && trail == Fill(' ', |trail|)
    ensures (Left(d, w) || '0' in d.flags ==> lead == "") && (!Left(d, w) ==> trail == "")
    ensures Read(body, Base(d.conv)) == Abs(value) && DigitsOf(body, Base(d.conv), d.conv == 'x')
    ensures Left(d, w) || '0' !in d.flags ==> |body| == Max(k, Precision(d, p))
  {
    SpelledOk(d);
    FieldTaken(d.width, args, w, args1);
    FieldTaken(d.precision, args1, p, args2);
    var spec := Converted(d, WithPrecisionOf(d, WidthSpec(d, w), p));
    var num := NumArg(spec.typ, v);
    IntegerSpec(d, w, p, v, spec);
    IntegerFits(d, w, p, num, spec, value, k);
    IntegerPrinted(d, args, w, args1, p, args2, v, rest, spec, num);
    lead, body, trail := NumberShape(num, spec, value, k);
  }

  /** An integer directive prints the number field of its argument and takes that argument. */
  lemma IntegerPrinted(
    d: Directive, args: seq<Arg>, w: Int16, args1: seq<Arg>, p: Int16, args2: seq<Arg>, v: int, rest: seq<Arg>,
    spec: Spec, num: nat)
    requires Spelled(d) && Qualified(d.qualifier) && Plainly(d.conv) && d.conv in CONVERSIONS
    requires Takes(d.width, args, w, args1) && Takes(d.precision, args1, p, args2)
    requires args2 == [IntArg(v)] + rest && spec == Converted(d, WithPrecisionOf(d, WidthSpec(d, w), p))
    requires IsNumber(spec.typ) && num == NumArg(spec.typ, v) && NumberSupported(num, spec)
    ensures DirectiveMeaning(d, args) == Some((NumberText(num, spec), rest))
  {
    MeaningOf(d, args, w, args1, p, args2, spec);
    IntegerStep(spec, v, rest, args2);
    AppendNothing(NumberText(num, spec));
  }

  lemma AppendNothing(s: seq<char>)
    ensures s + "" == s
  {
  }

  lemma IntegerStep(spec: Spec, v: int, rest: seq<Arg>, args: seq<Arg>)
    requires IsNumber(spec.typ) && NumberSupported(NumArg(spec.typ, v), spec) && args == [IntArg(v)] + rest
    ensures TokenStep(spec, "", args) == Some(Step(NumberText(NumArg(spec.typ, v), spec), spec, rest))
  {
    assert args[1..] == rest;
  }

  // ---- Strings, characters and the rest ----

  /** What `%s` shows of its argument: up to the precision, if there is one. */
  function ShownText(arg: Arg, p: int): seq<char>
    requires !arg.IntArg?
  {
    var s := if arg.NullArg? then "(null)" else arg.s;
    if 0 <= p < |s| then s[..p] else s
  }

  /** A string directive: the text, cut at the precision, with spaces on the left, or with `-` on
      the right, up to the width. A width of -32768 that does not ask for `-` would wrap. */
  lemma StringMeans(
    d: Directive, args: seq<Arg>, w: int, args1: seq<Arg>, p: int, args2: seq<Arg>, arg: Arg, rest: seq<Arg>)
    returns (lead: seq<char>, trail: seq<char>)
    requires Spelled(d) && Qualified(d.qualifier) && d.conv == 's'
    requires Takes(d.width, args, w, args1) && Takes(d.precision, args1, p, args2)
    requires args2 == [arg] + rest && !arg.IntArg?
    requires Left(d, w) || w != -32768
    ensures DirectiveOk(d)
    ensures var shown := ShownText(arg, Precision(d, p));
            && DirectiveMeaning(d, args) == Some((lead + shown + trail, rest))
            && |lead + shown + trail| == Max(Width(d, w), |shown|)
    ensures lead == Fill(' ', |lead|) && trail == Fill(' ', |trail|)
    ensures if Left(d, w) then lead == "" else trail == ""
  {
    SpelledOk(d);
    FieldTaken(d.width, args, w, args1);
    FieldTaken(d.precision, args1, p, args2);
    SpecSpelled(d, w, p);
    var spec := Converted(d, WithPrecisionOf(d, WidthSpec(d, w), p));
    var shown := ShownText(arg, Precision(d, p));
    MeaningOf(d, args, w, args1, p, args2, spec);
    assert args2[1..] == rest;
    lead := if Left(d, w) then "" else Fill(' ', Width(d, w) - |shown|);
    trail := if Left(d, w) then Fill(' ', Width(d, w) - |shown|) else "";
    StringField(arg, spec, shown, lead, trail);
    AppendNothing(lead + shown + trail);
  }

  lemma StringField(arg: Arg, spec: Spec, shown: seq<char>, lead: seq<char>, trail: seq<char>)
    requires !arg.IntArg? && shown == ShownText(arg, spec.precision)
    requires spec.flags.left || spec.fieldWidth != -32768
    requires lead == if spec.flags.left then "" else Fill(' ', spec.fieldWidth - |shown|)
    requires trail == if spec.flags.left then Fill(' ', spec.fieldWidth - |shown|) else ""
    ensures StringText(if arg.NullArg? then NULL_TEXT else arg.s, spec) == lead + shown + trail
  {
  }

  /** A character directive: the argument's low byte, and spaces as for strings. The widths -32768
      and, without `-`, -32767 would wrap. */
  lemma CharMeans(
    d: Directive, args: seq<Arg>, w: int, args1: seq<Arg>, p: int, args2: seq<Arg>, v: int, rest: seq<Arg>)
    returns (lead: seq<char>, trail: seq<char>)
    requires Spelled(d) && Qualified(d.qualifier) && d.conv == 'c'
    requires Takes(d.width, args, w, args1) && Takes(d.precision, args1, p, args2)
    requires args2 == [IntArg(v)] + rest
    requires w != -32768 && (Left(d, w) || w != -32767)
    ensures DirectiveOk(d)
    ensures var shown := [(v % 256) as char];
            && DirectiveMeaning(d, args) == Some((lead + shown + trail, rest))
            && |lead + shown + trail| == Max(Width(d, w), 1)
    ensures lead == Fill(' ', |lead|) && trail == Fill(' ', |trail|)
    ensures if Left(d, w) then lead == "" else trail == ""
  {
    SpelledOk(d);
    FieldTaken(d.width, args, w, args1);
    FieldTaken(d.precision, args1, p, args2);
    SpecSpelled(d, w, p);
    var spec := Converted(d, WithPrecisionOf(d, WidthSpec(d, w), p));
    MeaningOf(d, args, w, args1, p, args2, spec);
    assert args2[1..] == rest;
    lead := if Left(d, w) then "" else Fill(' ', Width(d, w) - 1);
    trail := if Left(d, w) then Fill(' ', Width(d, w) - 1) else "";
    CharField((v % 256) as char, spec, lead, trail);
    AppendNothing(lead + [(v % 256) as char] + trail);
  }

  lemma CharField(c: char, spec: Spec, lead: seq<char>, trail: seq<char>)
    requires spec.fieldWidth != -32768 && (spec.flags.left || spec.fieldWidth != -32767)
    requires lead == if spec.flags.left then "" else Fill(' ', spec.fieldWidth - 1)
    requires trail == if spec.flags.left then Fill(' ', spec.fieldWidth - 1) else ""
    ensures CharText(c, spec) == lead + [c] + trail
  {
    assert [c] + trail == "" + [c] + trail && lead + [c] == lead + [c] + "";
  }

  /** The remaining conversions take no argument of their own, whatever flags, width and precision
      say: `%%` prints a percent sign, `%p` just the p, an unknown character a percent sign and
      itself. */
  lemma OthersMean(d: Directive, args: seq<Arg>, w: int, args1: seq<Arg>, p: int, rest: seq<Arg>)
    requires Spelled(d) && Qualified(d.qualifier) && Plainly(d.conv)
    requires d.conv !in {'d', 'i', 'u', 'o', 'x', 'X', 's', 'c', 'n'}
    requires Takes(d.width, args, w, args1) && Takes(d.precision, args1, p, rest)
    ensures DirectiveOk(d)
    ensures DirectiveMeaning(d, args) ==
            Some((if d.conv == '%' then "%" else if d.conv == 'p' then "p" else ['%', d.conv], rest))
  {
    SpelledOk(d);
    FieldTaken(d.width, args, w, args1);
    FieldTaken(d.precision, args1, p, rest);
    MeaningOf(d, args, w, args1, p, rest, Converted(d, WithPrecisionOf(d, WidthSpec(d, w), p)));
    assert "%" + "" == "%" && "" + "p" == "p" && "%" + [d.conv] == ['%', d.conv];
  }
}
