/** The whole text that a format and its arguments stand for, without any bound. */
module PrintfRender {
  import opened PrintfDigits
  import opened PrintfSpec
  import opened PrintfDecode
  import opened Options

  /** What a C string holds in front of its NUL. */
  type CString = s: seq<char> | '\0' !in s

  /** An argument: an integer of any type, a string, or a pointer into the first page. */
  datatype Arg = IntArg(v: int) | StrArg(s: CString) | NullArg

  function SignExtend(v: int, bits: nat): nat
    requires bits in {8, 16, 32, 64}
  {
    var full := if bits == 8 then 0x100 else if bits == 16 then 0x1_0000 else if bits == 32 then 0x1_0000_0000 else LL;
    ((v + full / 2) % full - full / 2) % LL
  }

  /** The argument as vsnprintf hands it to the number printer: 64 bits, unsigned. On this
      machine ssize_t is unsigned too. */
  function NumArg(t: FormatType, v: int): (n: nat)
    ensures n < LL
  {
    match t
    case LONG_LONG => v % LL
    case LONG => SignExtend(v, 32)
    case UBYTE => v % 0x100
    case BYTE => SignExtend(v, 8)
    case USHORT => v % 0x1_0000
    case SHORT => SignExtend(v, 16)
    case INT => SignExtend(v, 32)
    case _ => v % 0x1_0000_0000
  }

  predicate IsNumber(t: FormatType) {
    t in {LONG_LONG, ULONG, LONG, UBYTE, BYTE, USHORT, SHORT, UINT, INT, SIZE_T}
  }

  /** What one token contributes: text, the specification to go on with, arguments left. */
  datatype Step = Step(text: seq<char>, spec: Spec, args: seq<Arg>)

  /** The next argument can serve as a `*` width or precision. */
  predicate IntNext(args: seq<Arg>) {
    args != [] && args[0].IntArg?
  }

  /** None where the program relies on something the conversions do not support: a missing
      or mistyped argument, a decimal of 10^8 or more, %n, or the t qualifier. */
  function TokenStep(spec: Spec, literal: seq<char>, args: seq<Arg>): Option<Step> {
    if spec.typ == NONE then Some(Step(literal, spec, args))
    else if spec.typ == WIDTH then
      if IntNext(args) then Some(Step("", spec.(fieldWidth := ToInt16(args[0].v)), args[1..])) else None
    else if spec.typ == PRECISION then
      if IntNext(args) then Some(Step("", spec.(precision := ToInt16(args[0].v)), args[1..])) else None
    else if spec.typ == PTR then Some(Step("", spec, args))
    else if spec.typ == PERCENT_CHAR || spec.typ == INVALID then Some(Step("%", spec, args))
    else if args == [] then None
    else if spec.typ == STR then
      if args[0].StrArg? then Some(Step(StringText(args[0].s, spec), spec, args[1..]))
      else if args[0].NullArg? then Some(Step(StringText(NULL_TEXT, spec), spec, args[1..]))
      else None
    else if !args[0].IntArg? then None
    else if spec.typ == CHAR then Some(Step(CharText((args[0].v % 256) as char, spec), spec, args[1..]))
    else if IsNumber(spec.typ) && NumberSupported(NumArg(spec.typ, args[0].v), spec) then
      Some(Step(NumberText(NumArg(spec.typ, args[0].v), spec), spec, args[1..]))
    else None
  }

  /** How many more `*` arguments a resumed decode can still ask for. */
  function Awaiting(spec: Spec): nat {
    if spec.typ == WIDTH then 2 else if spec.typ == PRECISION then 1 else 0
  }

  /** Characters left, then arguments awaited: what every round of the loop decreases. */
  lemma RoundDecreases(s: seq<char>, spec: Spec, args: seq<Arg>)
    requires s != [] && Decode(s, spec).Token?
    ensures var t := Decode(s, spec);
            && t.read <= |s|
            && (t.read > 0 || (Resumed(spec) && !Resumed(t.spec)))
            && var r := TokenStep(t.spec, s[..t.read], args);
               r.Some? ==> t.read > 0 || Awaiting(r.value.spec) < Awaiting(spec)
  {
    DecodeBounds(s, spec);
  }

  function Render(s: seq<char>, spec: Spec, args: seq<Arg>): Option<seq<char>>
    decreases |s|, Awaiting(spec)
  {
    if s == [] then Some("")
    else
      var t := Decode(s, spec);
      if t.Overrun? then None
      else
        RoundDecreases(s, spec, args);
        var r := TokenStep(t.spec, s[..t.read], args);
        if r.None? then None
        else
          var rest := Render(s[t.read..], r.value.spec, r.value.args);
          if rest.None? then None else Some(r.value.text + rest.value)
  }

  const INIT: Spec := Spec(NONE, NO_FLAGS, 0, '\0', 0, 0)
}
