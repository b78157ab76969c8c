/** Formats as they are meant: literal text and directives. Every format is spelled by such
    pieces, and rendering it gives exactly what its pieces mean. */
module PrintfFormats {
  import opened PrintfDigits
  import opened PrintfSpec
  import opened PrintfDecode
  import opened PrintfRender
  import opened Options

  /** A width or precision: none, digits, or `*`. */
  datatype Field = Absent | Number(digits: seq<char>) | Star

  /** A lone `h` or `l` takes along the character behind it. */
  datatype Qualifier = NoQualifier | Plain(c: char) | Lone(c: char, swallowed: char)

  /** A directive: flags, width, precision (after a dot), qualifier, conversion. */
  datatype Directive = Directive(
    flags: seq<char>, width: Field, dot: bool, precision: Field, qualifier: Qualifier, conv: char)

  /** In place of the conversion character: the format ends there. */
  const END: char := '\0'

  const CONVERSIONS: set<char> := {'c', 's', 'n', '%', 'o', 'x', 'X', 'd', 'i', 'u'}

  datatype Piece = Literal(text: seq<char>) | Conversion(d: Directive)

  // ---- Spelling ----

  function SpellField(f: Field): seq<char> {
    match f
    case Absent => ""
    case Number(ds) => ds
    case Star => "*"
  }

  function SpellQualifier(q: Qualifier): seq<char> {
    match q
    case NoQualifier => ""
    case Plain(c) => [c]
    case Lone(c, swallowed) => [c, swallowed]
  }

  function SpellConversion(d: Directive): seq<char> {
    SpellQualifier(d.qualifier) + (if d.conv == END then "" else [d.conv])
  }

  function SpellPrecision(d: Directive): seq<char> {
    (if d.dot then "." + SpellField(d.precision) else "") + SpellConversion(d)
  }

  function SpellWidth(d: Directive): seq<char> {
    SpellField(d.width) + SpellPrecision(d)
  }

  function SpellPiece(p: Piece): seq<char> {
    match p
    case Literal(text) => text
    case Conversion(d) => "%" + (d.flags + SpellWidth(d))
  }

  function Spell(ps: seq<Piece>): seq<char> {
    if ps == [] then "" else SpellPiece(ps[0]) + Spell(ps[1..])
  }

  // ---- Which pieces spell what they say ----

  /** A field in front of a character that does not belong to it. */
  predicate FieldOk(f: Field, next: char) {
    match f
    case Absent => !IsDigit(next) && next != '*'
    case Number(ds) => ds != [] && AllDigits(ds) && !IsDigit(next)
    case Star => true
  }

  /** A qualifier in front of the conversion character: a plain `h` or `l` is a doubled one. */
  predicate QualifierOk(q: Qualifier, conv: char) {
    match q
    case NoQualifier => !IsQualifier(conv)
    case Plain(c) => IsQualifier(c) && (c in {'h', 'l'} ==> conv == c)
    case Lone(c, swallowed) => c in {'h', 'l'} && swallowed != c && swallowed != END
  }

  predicate DirectiveOk(d: Directive) {
    && (forall i | 0 <= i < |d.flags| :: IsFlag(d.flags[i]))
    && !IsFlag(At(SpellWidth(d), 0))
    && FieldOk(d.width, At(SpellPrecision(d), 0))
    && (if d.dot then FieldOk(d.precision, At(SpellConversion(d), 0))
        else d.precision.Absent? && At(SpellConversion(d), 0) != '.')
    && QualifierOk(d.qualifier, d.conv)
  }

  /** Literals without a percent sign, directives, and an unfinished directive only at the end. */
  predicate PieceOk(p: Piece, last: bool) {
    match p
    case Literal(text) => '%' !in text
    case Conversion(d) => DirectiveOk(d) && (d.conv == END ==> last)
  }

  predicate PiecesOk(ps: seq<Piece>) {
    ps == [] || (PieceOk(ps[0], |ps| == 1) && PiecesOk(ps[1..]))
  }

  // ---- Meaning ----

  function Prefix(text: seq<char>, rest: Option<seq<char>>): Option<seq<char>> {
    if rest.None? then None else Some(text + rest.value)
  }

  function FoldFlags(flags: seq<char>, f: Flags): Flags {
    if flags == [] then f else FoldFlags(flags[1..], SetFlag(f, flags[0]))
  }

  function QualifierCode(q: Qualifier): char {
    match q
    case NoQualifier => NO_QUALIFIER
    case Plain(c) => c
    case Lone(c, _) => if c == 'l' then 'L' else 'H'
  }

  /** The conversion character and qualifier applied to a specification. */
  function Converted(d: Directive, spec: Spec): Spec {
    var spec1 := spec.(qualifier := QualifierCode(d.qualifier), base := 10);
    if d.conv == 'c' then spec1.(typ := CHAR)
    else if d.conv == 's' then spec1.(typ := STR)
    else if d.conv == 'p' then spec1.(typ := PTR)
    else if d.conv == 'n' then spec1.(typ := NRCHARS)
    else if d.conv == '%' then spec1.(typ := PERCENT_CHAR)
    else if d.conv == 'o' then Integer(spec1.(base := 8))
    else if d.conv == 'x' then Integer(spec1.(base := 16, flags := spec.flags.(small := true)))
    else if d.conv == 'X' then Integer(spec1.(base := 16))
    else if d.conv == 'd' || d.conv == 'i' then Integer(spec1.(flags := spec.flags.(sign := true)))
    else if d.conv == 'u' then Integer(spec1)
    else spec1.(typ := INVALID)
  }

  /** A `p` and a character that is no conversion stay unread and print as they are. */
  function Unread(d: Directive): seq<char> {
    if d.conv in CONVERSIONS || d.conv == END then "" else [d.conv]
  }

  /** A `*` takes the next argument; width and precision otherwise come from the format. */
  function FieldValue(f: Field, args: seq<Arg>): Option<(Int16, seq<Arg>)> {
    match f
    case Absent => Some((-1, args))
    case Number(ds) => Some((ToInt16(Read(ds, 10)), args))
    case Star => if IntNext(args) then Some((ToInt16(args[0].v), args[1..])) else None
  }

  /** The specification once the width is known: a negative `*` width asks for left
      justification. */
  function WidthSpec(d: Directive, w: Int16): Spec {
    var flags := FoldFlags(d.flags, NO_FLAGS);
    var left := d.width.Star? && w < 0;
    Spec(NONE, if left then flags.(left := true) else flags, 10, NO_QUALIFIER, if left then ToInt16(0 - w) else w, -1)
  }

  /** And once the precision is: one that is given counts as zero when negative. */
  function WithPrecisionOf(d: Directive, spec: Spec, p: Int16): Spec {
    spec.(precision := if d.precision.Absent? then -1 else NotBelowZero(p))
  }

  /** A format that ends right after a `*`: the argument is taken and nothing printed. */
  predicate Hangs(d: Directive) {
    d.conv == END && d.qualifier == NoQualifier && if d.dot then d.precision.Star? else d.width.Star?
  }

  function LastStep(d: Directive, spec: Spec, args: seq<Arg>): Option<Step> {
    if Hangs(d) then Some(Step("", spec, args)) else TokenStep(Converted(d, spec), "", args)
  }

  /** The text of a directive and the arguments it leaves. */
  function DirectiveMeaning(d: Directive, args: seq<Arg>): Option<(seq<char>, seq<Arg>)> {
    var w := FieldValue(d.width, args);
    if w.None? then None
    else
      var p := FieldValue(d.precision, w.value.1);
      if p.None? then None
      else
        var r := LastStep(d, WithPrecisionOf(d, WidthSpec(d, w.value.0), p.value.0), p.value.1);
        if r.None? then None else Some((r.value.text + Unread(d), r.value.args))
  }

  function Meaning(ps: seq<Piece>, args: seq<Arg>): Option<seq<char>> {
    if ps == [] then Some("")
    else
      match ps[0]
      case Literal(text) => Prefix(text, Meaning(ps[1..], args))
      case Conversion(d) =>
        var m := DirectiveMeaning(d, args);
        if m.None? then None else Prefix(m.value.0, Meaning(ps[1..], m.value.1))
  }

  // ---- Decoding a spelled directive, stage by stage ----

  /** What follows a directive: nothing if it was cut short. */
  predicate Follows(d: Directive, rest: seq<char>) {
    d.conv == END ==> rest == ""
  }

  /** The qualifier stage goes on with the conversion character. */
  lemma QualifierSpelled(s: seq<char>, k: nat, d: Directive, tail: seq<char>, spec: Spec, k2: nat)
    requires QualifierOk(d.qualifier, d.conv) && k <= |s| && s[k..] == SpellQualifier(d.qualifier) + tail
    requires At(tail, 0) == d.conv && k2 == k + |SpellQualifier(d.qualifier)|
    ensures k2 <= |s| && s[k2..] == tail && At(s, k2) == d.conv
    ensures QualifierPart(s, k, spec) == ConversionPart(s, k2, spec.(qualifier := QualifierCode(d.qualifier)))
  {
    Advance(s, k, SpellQualifier(d.qualifier), tail);
    if d.qualifier.Plain? { assert At(s, k) == d.qualifier.c; }
    if d.qualifier.Lone? { assert At(s, k + 1) == s[k..k + 2][1] == d.qualifier.swallowed; }
  }

  /** Decoding the conversion stops at `e`, where what is left unread and `rest` are to come. */
  lemma ConversionSpelled(s: seq<char>, k: nat, d: Directive, rest: seq<char>, spec: Spec, e: nat)
    requires QualifierOk(d.qualifier, d.conv) && Follows(d, rest) && k <= |s| && s[k..] == SpellConversion(d) + rest
    requires e == k + |SpellConversion(d)| - |Unread(d)|
    ensures QualifierPart(s, k, spec) == Token(e, Converted(d, spec))
    ensures e <= |s| && s[e..] == Unread(d) + rest
  {
    var conv := if d.conv == END then "" else [d.conv];
    var k2 := k + |SpellQualifier(d.qualifier)|;
    Associate(SpellQualifier(d.qualifier), conv, rest);
    QualifierSpelled(s, k, d, conv + rest, spec, k2);
    ConversionEnd(s, k2, d, rest, conv, e);
  }

  lemma ConversionEnd(s: seq<char>, k: nat, d: Directive, rest: seq<char>, conv: seq<char>, e: nat)
    requires conv == (if d.conv == END then "" else [d.conv]) && k <= |s| && s[k..] == conv + rest
    requires e == k + |conv| - |Unread(d)|
    ensures e <= |s| && s[e..] == Unread(d) + rest
  {
    Advance(s, k, conv, rest);
  }

  /** The precision that the spelling itself gives. */
  function GivenPrecision(d: Directive): Int16 {
    if d.precision.Number? then NotBelowZero(ToInt16(Read(d.precision.digits, 10))) else -1
  }

  /** The specification once the precision stage is done; a `*` stops the call right there. */
  lemma PrecisionSpelled(s: seq<char>, k: nat, d: Directive, rest: seq<char>, spec: Spec, e: nat)
    requires DirectiveOk(d) && Follows(d, rest) && k <= |s| && s[k..] == SpellPrecision(d) + rest
    requires e == k + |SpellPrecision(d)| - |Unread(d)|
    ensures d.precision.Star? ==>
              && PrecisionPart(s, k, spec) == Token(k + 2, spec.(precision := -1, typ := PRECISION))
              && k + 2 <= |s| && s[k + 2..] == SpellConversion(d) + rest
    ensures !d.precision.Star? ==>
              && PrecisionPart(s, k, spec) == Token(e, Converted(d, spec.(precision := GivenPrecision(d))))
              && e <= |s| && s[e..] == Unread(d) + rest
  {
    FirstCharacter(d, rest);
    var last := spec.(precision := GivenPrecision(d));
    if d.dot {
      var f, conversion := SpellField(d.precision), SpellConversion(d) + rest;
      FourParts(".", f, SpellConversion(d), rest);
      var k2 := k + 1 + |f|;
      DotSpelled(s, k, d.precision, f, conversion, spec, k2, last);
      if !d.precision.Star? { ConversionSpelled(s, k2, d, rest, last, e); }
    } else {
      Advance(s, k, "", SpellConversion(d) + rest);
      ConversionSpelled(s, k, d, rest, last, e);
    }
  }

  /** The dot and the field behind it. */
  lemma DotSpelled(
    s: seq<char>, k: nat, field: Field, f: seq<char>, tail: seq<char>, spec: Spec, k2: nat, last: Spec)
    requires FieldOk(field, At(tail, 0)) && f == SpellField(field) && k <= |s| && s[k..] == "." + (f + tail)
    requires k2 == k + 1 + |f|
    requires last == spec.(precision :=
                             if field.Number? then NotBelowZero(ToInt16(Read(field.digits, 10))) else -1)
    ensures k2 <= |s| && s[k2..] == tail
    ensures PrecisionPart(s, k, spec) ==
            if field.Star? then Token(k2, spec.(precision := -1, typ := PRECISION)) else QualifierPart(s, k2, last)
  {
    Advance(s, k, ".", f + tail);
    assert At(s, k) == '.';
    FieldSpelled(s, k + 1, field, f, tail, k2);
    assert spec.(precision := -1).(precision := last.precision) == last;
  }

  lemma FourParts(a: seq<char>, b: seq<char>, c: seq<char>, d: seq<char>)
    ensures a + b + c + d == a + (b + (c + d)) == a + (b + c) + d
  {
    Associate(a + b, c, d);
    Associate(a, b, c + d);
    Associate(a, b, c);
  }

  lemma FirstCharacter(d: Directive, rest: seq<char>)
    requires Follows(d, rest)
    ensures At(SpellConversion(d) + rest, 0) == At(SpellConversion(d), 0)
    ensures At(SpellPrecision(d) + rest, 0) == At(SpellPrecision(d), 0)
    ensures At(SpellWidth(d) + rest, 0) == At(SpellWidth(d), 0)
  {
  }

  /** What a field looks like from its first character. */
  lemma FieldStart(f: Field, tail: seq<char>)
    requires FieldOk(f, At(tail, 0))
    ensures IsDigit(At(SpellField(f) + tail, 0)) <==> f.Number?
    ensures At(SpellField(f) + tail, 0) == '*' <==> f.Star?
  {
    if f.Number? { assert IsDigit(f.digits[0]); }
  }

  /** A field is recognised by its first character, and its digits are read as they are meant. */
  lemma FieldSpelled(s: seq<char>, k: nat, field: Field, f: seq<char>, tail: seq<char>, k2: nat)
    requires FieldOk(field, At(tail, 0)) && f == SpellField(field) && k <= |s| && s[k..] == f + tail
    requires k2 == k + |f|
    ensures k2 <= |s| && s[k2..] == tail
    ensures (IsDigit(At(s, k)) <==> field.Number?) && (At(s, k) == '*' <==> field.Star?)
    ensures field.Number? ==> Atoi(s, k, 0) == (Read(field.digits, 10), k2)
  {
    Advance(s, k, f, tail);
    FieldStart(field, tail);
    if field.Number? { AtoiReadsNumber(s, k, f, tail); }
  }

  /** The width that the spelling itself gives. */
  function GivenWidth(d: Directive): Int16 {
    if d.width.Number? then ToInt16(Read(d.width.digits, 10)) else -1
  }

  lemma WidthSpelled(
    s: seq<char>, k: nat, field: Field, f: seq<char>, tail: seq<char>, spec: Spec, k2: nat, last: Spec)
    requires FieldOk(field, At(tail, 0)) && f == SpellField(field) && k <= |s| && s[k..] == f + tail
    requires k2 == k + |f|
    requires last == spec.(fieldWidth := if field.Number? then ToInt16(Read(field.digits, 10)) else -1)
    ensures k2 <= |s| && s[k2..] == tail
    ensures WidthPart(s, k, spec) ==
            if field.Star? then Token(k2, spec.(fieldWidth := -1, typ := WIDTH)) else PrecisionPart(s, k2, last)
  {
    FieldSpelled(s, k, field, f, tail, k2);
    assert spec.(fieldWidth := -1).(fieldWidth := last.fieldWidth) == last;
  }

  lemma {:induction false} FlagsSpelled(s: seq<char>, k: nat, flags: seq<char>, rest: seq<char>, f: Flags)
    requires forall i | 0 <= i < |flags| :: IsFlag(flags[i])
    requires !IsFlag(At(rest, 0)) && k <= |s| && s[k..] == flags + rest
    ensures FlagsFrom(s, k, f) == (FoldFlags(flags, f), k + |flags|)
    decreases |flags|
  {
    Advance(s, k, flags, rest);
    if flags != [] {
      assert s[k] == s[k..][0] == flags[0];
      assert s[k + 1..] == s[k..][1..] == flags[1..] + rest;
      FlagsSpelled(s, k + 1, flags[1..], rest, SetFlag(f, flags[0]));
    }
  }

  /** A fresh decode runs through the flags to the width stage. */
  lemma FlagsThenWidth(s: seq<char>, flags: seq<char>, tail: seq<char>, spec: Spec, k: nat, spec1: Spec)
    requires (forall i | 0 <= i < |flags| :: IsFlag(flags[i])) && !IsFlag(At(tail, 0)) && !Resumed(spec)
    requires s == "%" + (flags + tail) && k == 1 + |flags|
    requires spec1 == spec.(typ := NONE, flags := FoldFlags(flags, NO_FLAGS))
    ensures k <= |s| && s[k..] == tail && Decode(s, spec) == WidthPart(s, k, spec1)
  {
    assert s[1..] == flags + tail && s[0] == '%';
    FlagsSpelled(s, 1, flags, tail, NO_FLAGS);
    Advance(s, 1, flags, tail);
  }

  /** A fresh decode of a spelled directive, to its precision stage or over a `*`. */
  lemma DirectiveSpelled(
    s: seq<char>, d: Directive, rest: seq<char>, spec: Spec, spec1: Spec, k: nat, k2: nat, last: Spec)
    requires DirectiveOk(d) && Follows(d, rest) && !Resumed(spec) && s == SpellPiece(Conversion(d)) + rest
    requires k == 1 + |d.flags| && k2 == k + |SpellField(d.width)|
    requires spec1 == spec.(typ := NONE, flags := FoldFlags(d.flags, NO_FLAGS))
    requires last == spec1.(fieldWidth := GivenWidth(d))
    ensures s != [] && k2 <= |s| && s[k2..] == SpellPrecision(d) + rest
    ensures Decode(s, spec) ==
            if d.width.Star? then Token(k2, spec1.(fieldWidth := -1, typ := WIDTH)) else PrecisionPart(s, k2, last)
  {
    FirstCharacter(d, rest);
    FourParts("%", d.flags, SpellWidth(d), rest);
    FlagsThenWidth(s, d.flags, SpellWidth(d) + rest, spec, k, spec1);
    Associate(SpellField(d.width), SpellPrecision(d), rest);
    WidthSpelled(s, k, d.width, SpellField(d.width), SpellPrecision(d) + rest, spec1, k2, last);
  }

  // ---- Rendering spelled pieces ----

  /** The step after the last stage of a directive, then the rest of the format. */
  function Finish(d: Directive, spec: Spec, args: seq<Arg>, rest: seq<char>): Option<seq<char>> {
    var r := LastStep(d, spec, args);
    if r.None? then None else Prefix(r.value.text, Render(Unread(d) + rest, r.value.spec, r.value.args))
  }

  lemma ConvertedEnds(d: Directive, spec: Spec, literal: seq<char>, args: seq<Arg>)
    ensures !Resumed(Converted(d, spec)) && Converted(d, spec).typ != NONE
    ensures TokenStep(Converted(d, spec), literal, args) == TokenStep(Converted(d, spec), "", args)
    ensures var r := TokenStep(Converted(d, spec), literal, args); r.Some? ==> !Resumed(r.value.spec)
  {
  }

  /** From a token that completes the directive. */
  lemma RenderFinish(s: seq<char>, spec: Spec, args: seq<Arg>, d: Directive, last: Spec, read: nat, rest: seq<char>)
    requires s != [] && read <= |s| && s[read..] == Unread(d) + rest && !Hangs(d)
    requires Decode(s, spec) == Token(read, Converted(d, last))
    ensures Render(s, spec, args) == Finish(d, last, args, rest)
  {
    ConvertedEnds(d, last, s[..read], args);
  }

  /** The rest of a directive from its precision on, then the rest of the format. */
  function FromPrecision(d: Directive, spec: Spec, args: seq<Arg>, rest: seq<char>): Option<seq<char>> {
    var p := FieldValue(d.precision, args);
    if p.None? then None else Finish(d, WithPrecisionOf(d, spec, p.value.0), p.value.1, rest)
  }

  /** Either to the end of the directive, or over a `*`. */
  lemma RenderFromPrecision(
    s: seq<char>, spec: Spec, args: seq<Arg>, d: Directive, k: nat, rest: seq<char>, spec1: Spec)
    requires DirectiveOk(d) && Follows(d, rest) && s != [] && spec1.typ == NONE
    requires Hangs(d) ==> d.precision.Star?
    requires k <= |s| && s[k..] == SpellPrecision(d) + rest
    requires Decode(s, spec) == PrecisionPart(s, k, spec1)
    ensures Render(s, spec, args) == FromPrecision(d, spec1, args, rest)
  {
    var e := k + |SpellPrecision(d)| - |Unread(d)|;
    PrecisionSpelled(s, k, d, rest, spec1, e);
    if d.precision.Star? {
      RenderStarPrecision(s, spec, args, d, k + 2, rest, spec1);
    } else {
      RenderFinish(s, spec, args, d, spec1.(precision := GivenPrecision(d)), e, rest);
    }
  }

  lemma RenderStarPrecision(
    s: seq<char>, spec: Spec, args: seq<Arg>, d: Directive, k: nat, rest: seq<char>, spec1: Spec)
    requires DirectiveOk(d) && Follows(d, rest) && s != [] && spec1.typ == NONE && d.precision.Star?
    requires k <= |s| && s[k..] == SpellConversion(d) + rest
    requires Decode(s, spec) == Token(k, spec1.(precision := -1, typ := PRECISION))
    ensures Render(s, spec, args) == FromPrecision(d, spec1, args, rest)
  {
    RenderTakesPrecision(s, spec, args, k, spec1.(precision := -1, typ := PRECISION), SpellConversion(d) + rest);
    if IntNext(args) {
      var p := ToInt16(args[0].v);
      var spec2 := spec1.(precision := p, typ := PRECISION);
      assert spec1.(precision := -1, typ := PRECISION).(precision := p) == spec2;
      RenderAfterStarPrecision(d, rest, spec2, args[1..]);
      assert WithPrecision(spec2) == WithPrecisionOf(d, spec1, p);
    }
  }

  lemma RenderTakesPrecision(s: seq<char>, spec: Spec, args: seq<Arg>, k: nat, spec1: Spec, tail: seq<char>)
    requires s != [] && k <= |s| && s[k..] == tail && Decode(s, spec) == Token(k, spec1) && spec1.typ == PRECISION
    ensures Render(s, spec, args) ==
            if IntNext(args) then Render(tail, spec1.(precision := ToInt16(args[0].v)), args[1..]) else None
  {
    if IntNext(args) { PrefixEmpty(Render(tail, spec1.(precision := ToInt16(args[0].v)), args[1..])); }
  }

  /** Taking up a directive after its `*` precision. */
  lemma RenderAfterStarPrecision(d: Directive, rest: seq<char>, spec: Spec, args: seq<Arg>)
    requires DirectiveOk(d) && Follows(d, rest) && spec.typ == PRECISION && d.precision.Star?
    ensures Render(SpellConversion(d) + rest, spec, args) == Finish(d, WithPrecision(spec), args, rest)
  {
    var s, e := SpellConversion(d) + rest, |SpellConversion(d)| - |Unread(d)|;
    if s != "" {
      ConversionSpelled(s, 0, d, rest, WithPrecision(spec), e);
      RenderFinish(s, spec, args, d, WithPrecision(spec), e, rest);
    } else {
      assert Hangs(d) && Unread(d) + rest == "";
    }
  }

  lemma PrefixEmpty(o: Option<seq<char>>)
    ensures Prefix("", o) == o
  {
    if o.Some? { assert "" + o.value == o.value; }
  }

  /** Whatever base, qualifier and precision were before, the rest of the directive sets them. */
  lemma FromPrecisionForgets(d: Directive, a: Spec, b: Spec, args: seq<Arg>, rest: seq<char>)
    requires a.typ == b.typ == NONE && a.flags == b.flags && a.fieldWidth == b.fieldWidth && Follows(d, rest)
    ensures FromPrecision(d, a, args, rest) == FromPrecision(d, b, args, rest)
  {
    var p := FieldValue(d.precision, args);
    if p.Some? {
      var a1, b1 := WithPrecisionOf(d, a, p.value.0), WithPrecisionOf(d, b, p.value.0);
      assert Converted(d, a1) == Converted(d, b1);
    }
  }

  /** Rendering a spelled directive: its own text, then the rest. */
  lemma RenderDirective(d: Directive, rest: seq<char>, spec: Spec, args: seq<Arg>)
    requires DirectiveOk(d) && Follows(d, rest) && !Resumed(spec)
    ensures var w := FieldValue(d.width, args);
            Render(SpellPiece(Conversion(d)) + rest, spec, args) ==
            if w.None? then None else FromPrecision(d, WidthSpec(d, w.value.0), w.value.1, rest)
  {
    var s, k := SpellPiece(Conversion(d)) + rest, 1 + |d.flags|;
    var k2 := k + |SpellField(d.width)|;
    var spec1 := spec.(typ := NONE, flags := FoldFlags(d.flags, NO_FLAGS));
    var spec2 := spec1.(fieldWidth := GivenWidth(d));
    DirectiveSpelled(s, d, rest, spec, spec1, k, k2, spec2);
    if d.width.Star? {
      RenderStarWidth(s, spec, args, d, k2, rest, spec1);
    } else {
      RenderFromPrecision(s, spec, args, d, k2, rest, spec2);
      FromPrecisionForgets(d, spec2, WidthSpec(d, GivenWidth(d)), args, rest);
    }
  }

  lemma RenderStarWidth(
    s: seq<char>, spec: Spec, args: seq<Arg>, d: Directive, k: nat, rest: seq<char>, spec1: Spec)
    requires DirectiveOk(d) && Follows(d, rest) && s != [] && d.width.Star?
    requires spec1.typ == NONE && spec1.flags == FoldFlags(d.flags, NO_FLAGS)
    requires k <= |s| && s[k..] == SpellPrecision(d) + rest
    requires Decode(s, spec) == Token(k, spec1.(fieldWidth := -1, typ := WIDTH))
    ensures Render(s, spec, args) ==
            if IntNext(args) then FromPrecision(d, WidthSpec(d, ToInt16(args[0].v)), args[1..], rest) else None
  {
    RenderTakesWidth(s, spec, args, k, spec1.(fieldWidth := -1, typ := WIDTH), SpellPrecision(d) + rest);
    if IntNext(args) {
      var w := ToInt16(args[0].v);
      var spec2 := spec1.(fieldWidth := w, typ := WIDTH);
      assert spec1.(fieldWidth := -1, typ := WIDTH).(fieldWidth := w) == spec2;
      RenderAfterStar(d, rest, spec2, args[1..]);
      StarWidthSpec(d, spec2, w);
      FromPrecisionForgets(d, WithWidth(spec2), WidthSpec(d, w), args[1..], rest);
    }
  }

  lemma StarWidthSpec(d: Directive, spec: Spec, w: Int16)
    requires d.width.Star? && spec.flags == FoldFlags(d.flags, NO_FLAGS) && spec.fieldWidth == w
    ensures var a, b := WithWidth(spec), WidthSpec(d, w);
            a.typ == b.typ == NONE && a.flags == b.flags && a.fieldWidth == b.fieldWidth
  {
  }

  /** A round that ends at a `*` takes the next argument and goes on behind it. */
  lemma RenderTakesWidth(s: seq<char>, spec: Spec, args: seq<Arg>, k: nat, spec1: Spec, tail: seq<char>)
    requires s != [] && k <= |s| && s[k..] == tail && Decode(s, spec) == Token(k, spec1) && spec1.typ == WIDTH
    ensures Render(s, spec, args) ==
            if IntNext(args) then Render(tail, spec1.(fieldWidth := ToInt16(args[0].v)), args[1..]) else None
  {
    if IntNext(args) { PrefixEmpty(Render(tail, spec1.(fieldWidth := ToInt16(args[0].v)), args[1..])); }
  }

  /** Taking up a directive after its `*` width. */
  lemma RenderAfterStar(d: Directive, rest: seq<char>, spec: Spec, args: seq<Arg>)
    requires DirectiveOk(d) && Follows(d, rest) && spec.typ == WIDTH && d.width.Star?
    ensures Render(SpellPrecision(d) + rest, spec, args) == FromPrecision(d, WithWidth(spec), args, rest)
  {
    var s := SpellPrecision(d) + rest;
    if s != "" {
      RenderFromPrecision(s, spec, args, d, 0, rest, WithWidth(spec));
    } else {
      assert Hangs(d) && Unread(d) + rest == "";
    }
  }

  lemma {:induction false} LiteralLenConcat(text: seq<char>, t: seq<char>)
    requires '%' !in text
    ensures LiteralLen(text + t) == |text| + LiteralLen(t)
  {
    if text == [] {
      assert text + t == t;
    } else {
      assert (text + t)[1..] == text[1..] + t;
      LiteralLenConcat(text[1..], t);
    }
  }

  /** Literal text in front of anything is copied. */
  lemma RenderLiteral(text: seq<char>, t: seq<char>, spec: Spec, args: seq<Arg>)
    requires '%' !in text && !Resumed(spec)
    ensures Render(text + t, spec, args) == Prefix(text, Render(t, spec, args))
  {
    var s := text + t;
    if text == [] {
      assert s == t;
      PrefixEmpty(Render(t, spec, args));
    } else {
      var m := LiteralLen(t);
      LiteralLenConcat(text, t);
      Associate(text, t[..m], t[m..]);
      assert t == t[..m] + t[m..];
      RenderRun(s, text + t[..m], t[m..], spec, args);
      PrefixPrefix(text, t[..m], Render(t[m..], spec.(typ := NONE), args));
      RenderSplit(t, m, spec, args);
    }
  }

  lemma RenderSplit(t: seq<char>, m: nat, spec: Spec, args: seq<Arg>)
    requires !Resumed(spec) && m == LiteralLen(t)
    ensures Render(t, spec, args) == Prefix(t[..m], Render(t[m..], spec.(typ := NONE), args))
  {
    if m > 0 {
      assert t == t[..m] + t[m..];
      RenderRun(t, t[..m], t[m..], spec, args);
    } else {
      assert t[m..] == t && t[..m] == "";
      RenderPlain(t, spec, args);
      PrefixEmpty(Render(t, spec, args));
    }
  }

  lemma PrefixPrefix(a: seq<char>, b: seq<char>, o: Option<seq<char>>)
    ensures Prefix(a + b, o) == Prefix(a, Prefix(b, o))
  {
    if o.Some? { assert a + b + o.value == a + (b + o.value); }
  }

  /** A run of plain characters is one token. */
  lemma RenderRun(s: seq<char>, run: seq<char>, tail: seq<char>, spec: Spec, args: seq<Arg>)
    requires s == run + tail && run != [] && |run| == LiteralLen(s) && !Resumed(spec)
    ensures Render(s, spec, args) == Prefix(run, Render(tail, spec.(typ := NONE), args))
  {
    assert s[..|run|] == run && s[|run|..] == tail;
    assert Decode(s, spec) == Token(|run|, spec.(typ := NONE));
  }

  lemma RenderPlain(s: seq<char>, spec: Spec, args: seq<Arg>)
    requires !Resumed(spec)
    ensures Render(s, spec, args) == Render(s, spec.(typ := NONE), args)
  {
    assert Decode(s, spec) == Decode(s, spec.(typ := NONE));
  }

  /** After the last stage, what the directive left unread is copied. */
  lemma RenderAfter(d: Directive, spec: Spec, args: seq<Arg>, rest: seq<char>)
    requires !Resumed(spec)
    ensures var r := LastStep(d, spec, args);
            && (r.Some? ==> !Resumed(r.value.spec))
            && Finish(d, spec, args, rest) ==
               if r.None? then None
               else Prefix(r.value.text + Unread(d), Render(rest, r.value.spec, r.value.args))
  {
    var r := LastStep(d, spec, args);
    if r.Some? {
      ConvertedEnds(d, spec, "", args);
      RenderLiteral(Unread(d), rest, r.value.spec, r.value.args);
      PrefixPrefix(r.value.text, Unread(d), Render(rest, r.value.spec, r.value.args));
    }
  }

  /** Every format built from pieces renders to what the pieces mean, whatever the
      specification held before; in particular it is never cut short by the decoder. */
  lemma {:induction false} RenderMeans(ps: seq<Piece>, spec: Spec, args: seq<Arg>)
    requires PiecesOk(ps) && !Resumed(spec)
    ensures Render(Spell(ps), spec, args) == Meaning(ps, args)
  {
    if ps != [] {
      match ps[0] {
        case Literal(text) =>
          RenderLiteral(text, Spell(ps[1..]), spec, args);
          RenderMeans(ps[1..], spec, args);
        case Conversion(d) =>
          RenderDirective(d, Spell(ps[1..]), spec, args);
          var w := FieldValue(d.width, args);
          if w.Some? {
            var p := FieldValue(d.precision, w.value.1);
            if p.Some? {
              var last := WithPrecisionOf(d, WidthSpec(d, w.value.0), p.value.0);
              RenderAfter(d, last, p.value.1, Spell(ps[1..]));
              var r := LastStep(d, last, p.value.1);
              if r.Some? { RenderMeans(ps[1..], r.value.spec, r.value.args); }
            }
          }
      }
    }
  }

  /** The decoder's own promise for `h`, `l` and `L`, and where it is kept: a qualifier in
      front of a conversion character is honoured exactly when it is not a lower-case `h` or
      `l`, which swallow that character instead. */
  lemma QualifierHonoured(s: seq<char>, k: nat, d: Directive, q: char, rest: seq<char>, spec: Spec)
    requires d.conv in CONVERSIONS && IsQualifier(q) && k <= |s| && s[k..] == [q, d.conv] + rest
    ensures QualifierPart(s, k, spec) == Token(k + 2, Converted(d.(qualifier := Plain(q)), spec)) <==> q !in {'h', 'l'}
  {
    Advance(s, k, [q], [d.conv] + rest);
    assert [q, d.conv] + rest == [q] + ([d.conv] + rest);
    assert At(s, k) == q && At(s, k + 1) == d.conv;
    if q in {'h', 'l'} && |s| > k + 2 {
      assert ConversionPart(s, k + 2, spec.(qualifier := if q == 'l' then 'L' else 'H')).spec.qualifier != q;
    }
  }

  /** So the everyday "%ld" prints a percent sign and leaves its argument unread. */
  lemma LongDecimalLost(args: seq<Arg>)
    ensures Render("%ld", INIT, args) == Some("%")
  {
    var d := Directive("", Absent, false, Absent, Lone('l', 'd'), END);
    assert Spell([Conversion(d)]) == "%ld";
    assert DirectiveOk(d) && PiecesOk([Conversion(d)]);
    RenderMeans([Conversion(d)], INIT, args);
    assert "%" + "" == "%";
    assert DirectiveMeaning(d, args) == Some(("%", args));
    assert Meaning([Conversion(d)], args) == Prefix("%", Some(""));
  }

  // ---- Reading a format as pieces ----

  function ParseField(s: seq<char>, k: nat): (r: (Field, nat))
    requires k <= |s|
    ensures k <= r.1 <= |s|
  {
    if IsDigit(At(s, k)) then (Number(s[k..Atoi(s, k, 0).1]), Atoi(s, k, 0).1)
    else if At(s, k) == '*' then (Star, k + 1)
    else (Absent, k)
  }

  /** A lone `h` or `l` as the last character of the format. */
  predicate RunsOver(s: seq<char>, k: nat)
    requires k <= |s|
  {
    k + 1 == |s| && s[k] in {'h', 'l'}
  }

  function ParseQualifier(s: seq<char>, k: nat): (r: (Qualifier, nat))
    requires k <= |s| && !RunsOver(s, k)
    ensures k <= r.1 <= |s|
  {
    if !IsQualifier(At(s, k)) then (NoQualifier, k)
    else if s[k] in {'h', 'l'} && s[k + 1] != s[k] then (Lone(s[k], s[k + 1]), k + 2)
    else (Plain(s[k]), k + 1)
  }

  /** The directive that starts at place 0, and where it ends. */
  function ParseDirective(s: seq<char>): (r: Option<(Directive, nat)>)
    requires s != "" && s[0] == '%'
    ensures r.Some? ==> 0 < r.value.1 <= |s|
  {
    var k1 := FlagsFrom(s, 1, NO_FLAGS).1;
    var (width, k2) := ParseField(s, k1);
    var dot := At(s, k2) == '.';
    var (precision, k3) := if dot then ParseField(s, k2 + 1) else (Absent, k2);
    if RunsOver(s, k3) then None
    else
      var (qualifier, k4) := ParseQualifier(s, k3);
      Some((Directive(s[1..k1], width, dot, precision, qualifier, At(s, k4)), if k4 < |s| then k4 + 1 else k4))
  }

  /** The first piece of a format and where it ends. */
  function ParsePiece(s: seq<char>): (r: Option<(Piece, nat)>)
    requires s != ""
    ensures r.Some? ==> 0 < r.value.1 <= |s|
  {
    var n := LiteralLen(s);
    if n > 0 then Some((Literal(s[..n]), n))
    else
      var d := ParseDirective(s);
      if d.None? then None else Some((Conversion(d.value.0), d.value.1))
  }

  function Parse(s: seq<char>): Option<seq<Piece>> {
    if s == "" then Some([])
    else
      var p := ParsePiece(s);
      if p.None? then None
      else
        var rest := Parse(s[p.value.1..]);
        if rest.None? then None else Some([p.value.0] + rest.value)
  }

  lemma {:induction false} AtoiRun(s: seq<char>, k: nat, acc: nat)
    requires k <= |s|
    ensures var e := Atoi(s, k, acc).1; AllDigits(s[k..e]) && !IsDigit(At(s, e))
    decreases |s| - k
  {
    if k < |s| && IsDigit(s[k]) {
      AtoiRun(s, k + 1, acc * 10 + (s[k] - '0') as nat);
    }
  }

  lemma ParsedField(s: seq<char>, k: nat)
    requires k <= |s|
    ensures var (f, e) := ParseField(s, k); s[k..] == SpellField(f) + s[e..] && FieldOk(f, At(s, e))
  {
    AtoiRun(s, k, 0);
  }

  lemma {:induction false} ParsedFlags(s: seq<char>, k: nat, f: Flags)
    requires k <= |s|
    ensures var e := FlagsFrom(s, k, f).1; (forall i | k <= i < e :: IsFlag(s[i])) && !IsFlag(At(s, e))
    decreases |s| - k
  {
    if k < |s| && IsFlag(s[k]) { ParsedFlags(s, k + 1, SetFlag(f, s[k])); }
  }

  lemma ParsedQualifier(s: CString, k: nat)
    requires k <= |s| && !RunsOver(s, k)
    ensures var (q, e) := ParseQualifier(s, k); s[k..] == SpellQualifier(q) + s[e..] && QualifierOk(q, At(s, e))
  {
  }

  /** The pieces of a directive put together again, from its conversion backwards. */
  lemma ParsedConversion(s: CString, k: nat, d: Directive, e: nat)
    requires k <= |s| && !RunsOver(s, k) && d.qualifier == ParseQualifier(s, k).0
    requires var k2 := ParseQualifier(s, k).1; d.conv == At(s, k2) && e == if k2 < |s| then k2 + 1 else k2
    ensures e <= |s| && s[k..] == SpellConversion(d) + s[e..] && QualifierOk(d.qualifier, d.conv)
    ensures Follows(d, s[e..]) && (d.conv == END ==> e == |s|)
  {
    ParsedQualifier(s, k);
    var k2 := ParseQualifier(s, k).1;
    var conv := if d.conv == END then "" else [d.conv];
    assert s[k2..] == conv + s[e..];
    Associate(SpellQualifier(d.qualifier), conv, s[e..]);
  }

  lemma ParsedPrecision(s: CString, k: nat, d: Directive, k2: nat, rest: seq<char>)
    requires k <= k2 <= |s| && d.dot == (At(s, k) == '.') && s[k2..] == SpellConversion(d) + rest && Follows(d, rest)
    requires (d.precision, k2) == if d.dot then ParseField(s, k + 1) else (Absent, k)
    ensures s[k..] == SpellPrecision(d) + rest
    ensures if d.dot then FieldOk(d.precision, At(SpellConversion(d), 0))
            else d.precision.Absent? && At(SpellConversion(d), 0) != '.'
  {
    FirstCharacter(d, rest);
    Advance(s, k2, "", s[k2..]);
    if d.dot { ParsedDot(s, k, d.precision, k2, SpellConversion(d), rest); }
  }

  lemma ParsedDot(s: CString, k: nat, field: Field, k2: nat, conversion: seq<char>, rest: seq<char>)
    requires k < |s| && s[k] == '.' && (field, k2) == ParseField(s, k + 1) && s[k2..] == conversion + rest
    ensures s[k..] == "." + SpellField(field) + conversion + rest && FieldOk(field, At(s, k2))
  {
    ParsedField(s, k + 1);
    assert s[k..] == "." + s[k + 1..];
    FourParts(".", SpellField(field), conversion, rest);
  }

  lemma ParsedWidth(s: CString, k: nat, d: Directive, k2: nat, rest: seq<char>)
    requires k <= |s| && (d.width, k2) == ParseField(s, k)
    requires s[k2..] == SpellPrecision(d) + rest && Follows(d, rest)
    ensures s[k..] == SpellWidth(d) + rest && FieldOk(d.width, At(SpellPrecision(d), 0))
  {
    FirstCharacter(d, rest);
    Advance(s, k2, "", s[k2..]);
    ParsedField(s, k);
    Associate(SpellField(d.width), SpellPrecision(d), rest);
  }

  lemma ParsedStart(s: CString, d: Directive, k: nat, rest: seq<char>)
    requires s != "" && s[0] == '%' && k == FlagsFrom(s, 1, NO_FLAGS).1 && d.flags == s[1..k]
    requires s[k..] == SpellWidth(d) + rest && Follows(d, rest)
    ensures s == SpellPiece(Conversion(d)) + rest && !IsFlag(At(SpellWidth(d), 0))
    ensures forall i | 0 <= i < |d.flags| :: IsFlag(d.flags[i])
  {
    ParsedFlags(s, 1, NO_FLAGS);
    FirstCharacter(d, rest);
    ParsedPercent(s, k, d.flags, SpellWidth(d), rest);
  }

  lemma ParsedPercent(s: seq<char>, k: nat, flags: seq<char>, width: seq<char>, rest: seq<char>)
    requires 1 <= k <= |s| && s[0] == '%' && flags == s[1..k] && s[k..] == width + rest
    ensures s == "%" + (flags + width) + rest && At(s, k) == At(width + rest, 0)
  {
    assert s == "%" + (flags + s[k..]);
    FourParts("%", flags, width, rest);
  }

  /** What is read as a directive is one, spelled as it was. */
  lemma ParsedDirective(s: CString, d: Directive, e: nat)
    requires s != "" && s[0] == '%' && ParseDirective(s) == Some((d, e))
    ensures e <= |s| && DirectiveOk(d) && (d.conv == END ==> e == |s|) && s == SpellPiece(Conversion(d)) + s[e..]
  {
    var k1 := FlagsFrom(s, 1, NO_FLAGS).1;
    var k2 := ParseField(s, k1).1;
    var k3 := if d.dot then ParseField(s, k2 + 1).1 else k2;
    ParsedConversion(s, k3, d, e);
    ParsedPrecision(s, k2, d, k3, s[e..]);
    ParsedWidth(s, k1, d, k2, s[e..]);
    ParsedStart(s, d, k1, s[e..]);
  }

  lemma ParsedPiece(s: CString, p: Piece, e: nat)
    requires s != "" && ParsePiece(s) == Some((p, e))
    ensures e <= |s| && PieceOk(p, s[e..] == "") && s == SpellPiece(p) + s[e..]
  {
    if LiteralLen(s) > 0 {
      assert s == s[..e] + s[e..];
    } else {
      ParsedDirective(s, p.d, e);
    }
  }

  lemma {:induction false} ParsedPieces(s: CString)
    requires Parse(s).Some?
    ensures PiecesOk(Parse(s).value) && Spell(Parse(s).value) == s
    decreases |s|
  {
    if s != "" {
      var (p, e) := ParsePiece(s).value;
      ParsedPiece(s, p, e);
      ParsedPieces(s[e..]);
      OnePieceMore(p, Parse(s[e..]).value, s, s[e..]);
    }
  }

  lemma OnePieceMore(p: Piece, ps: seq<Piece>, s: seq<char>, rest: seq<char>)
    requires PieceOk(p, rest == "") && PiecesOk(ps) && Spell(ps) == rest && s == SpellPiece(p) + rest
    requires rest == "" ==> ps == []
    ensures PiecesOk([p] + ps) && Spell([p] + ps) == s
  {
    assert ([p] + ps)[1..] == ps;
  }

  /** Every format that does not end in `h` or `l` reads as pieces. */
  lemma {:induction false} ParsesUnlessCut(s: CString)
    requires s != "" ==> s[|s| - 1] !in {'h', 'l'}
    ensures Parse(s).Some?
    decreases |s|
  {
    if s != "" { ParsesUnlessCut(s[ParsePiece(s).value.1..]); }
  }

  /** Whatever format it is given, the program prints what the pieces of the format mean; only a
      format cut off behind a lone `h` or `l` has no pieces. */
  lemma EveryFormat(s: CString, args: seq<Arg>)
    ensures Parse(s).Some? ==> Spell(Parse(s).value) == s && Render(s, INIT, args) == Meaning(Parse(s).value, args)
    ensures Parse(s).None? ==> s != "" && s[|s| - 1] in {'h', 'l'}
  {
    if Parse(s).Some? {
      ParsedPieces(s);
      RenderMeans(Parse(s).value, INIT, args);
    } else if s == "" || s[|s| - 1] !in {'h', 'l'} {
      ParsesUnlessCut(s);
    }
  }
}
