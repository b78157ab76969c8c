/** The formatter as it runs: characters decoded one by one, bounded writes into a buffer. */
module Printf {
  import opened PrintfDigits
  import opened PrintfSpec
  import opened PrintfSink
  import opened PrintfNumber
  import opened PrintfDecode
  import opened PrintfRender
  import opened Options

  method SkipAtoi(s: seq<char>, start: nat) returns (value: nat, k: nat)
    requires start <= |s|
    ensures (value, k) == Atoi(s, start, 0)
  {
    value, k := 0, start;
    while IsDigit(At(s, k))
      invariant k <= |s| && Atoi(s, k, value) == Atoi(s, start, 0)
      decreases |s| - k
    {
      value := value * 10 + (At(s, k) - '0') as nat;
      k := k + 1;
    }
  }

  /** Stop at the first '%' or the end. */
  method SkipLiteral(s: CString) returns (k: nat)
    ensures k == LiteralLen(s)
  {
    k := 0;
    assert s[0..] == s;
    while At(s, k) != '\0' && At(s, k) != '%'
      invariant k <= |s| && LiteralLen(s) == k + LiteralLen(s[k..])
      decreases |s| - k
    {
      assert s[k..][1..] == s[k + 1..];
      k := k + 1;
    }
  }

  method SkipFlags(s: seq<char>, start: nat) returns (f: Flags, k: nat)
    requires start <= |s|
    ensures (f, k) == FlagsFrom(s, start, NO_FLAGS)
  {
    f, k := NO_FLAGS, start;
    var found := true;
    while found
      invariant k <= |s| && FlagsFrom(s, k, f) == FlagsFrom(s, start, NO_FLAGS)
      invariant !found ==> k == |s| || !IsFlag(s[k])
      decreases found, |s| - k
    {
      found := IsFlag(At(s, k));
      if found {
        f := SetFlag(f, At(s, k));
        k := k + 1;
      }
    }
  }

  /** format_decode on the format from here on. The stages it jumps into when it resumes are
      entered by flags here. */
  method FormatDecode(s: CString, spec0: Spec) returns (read: nat, spec: Spec)
    requires Decode(s, spec0).Token?
    ensures Token(read, spec) == Decode(s, spec0)
  {
    spec := spec0.(typ := NONE);
    if spec0.typ == WIDTH {
      if spec.fieldWidth < 0 {
        spec := spec.(fieldWidth := ToInt16(0 - spec.fieldWidth), flags := spec.flags.(left := true));
      }
      assert spec == WithWidth(spec0);
      read, spec := DecodePrecision(s, 0, spec);
    } else if spec0.typ == PRECISION {
      if spec.precision < 0 { spec := spec.(precision := 0); }
      assert spec == WithPrecision(spec0);
      read, spec := DecodeQualifier(s, 0, spec);
    } else {
      read, spec := DecodeFresh(s, spec);
    }
  }

  method DecodeFresh(s: CString, spec0: Spec) returns (read: nat, spec: Spec)
    requires FreshPart(s, spec0).Token?
    ensures Token(read, spec) == FreshPart(s, spec0)
  {
    spec := spec0;
    var k := SkipLiteral(s);
    if k != 0 || At(s, k) == '\0' { return k, spec; }
    var f;
    f, k := SkipFlags(s, 1);
    read, spec := DecodeWidth(s, k, spec.(flags := f));
  }

  method DecodeWidth(s: seq<char>, k0: nat, spec0: Spec) returns (read: nat, spec: Spec)
    requires k0 <= |s| && WidthPart(s, k0, spec0).Token?
    ensures Token(read, spec) == WidthPart(s, k0, spec0)
  {
    var k := k0;
    spec := spec0.(fieldWidth := -1);
    if IsDigit(At(s, k)) {
      var w;
      w, k := SkipAtoi(s, k);
      spec := spec.(fieldWidth := ToInt16(w));
    } else if At(s, k) == '*' {
      return k + 1, spec.(typ := WIDTH);
    }
    read, spec := DecodePrecision(s, k, spec);
  }

  method DecodePrecision(s: seq<char>, k0: nat, spec0: Spec) returns (read: nat, spec: Spec)
    requires k0 <= |s| && PrecisionPart(s, k0, spec0).Token?
    ensures Token(read, spec) == PrecisionPart(s, k0, spec0)
  {
    var k := k0;
    spec := spec0.(precision := -1);
    if At(s, k) == '.' {
      k := k + 1;
      if IsDigit(At(s, k)) {
        var p;
        p, k := SkipAtoi(s, k);
        spec := spec.(precision := ToInt16(p));
        if spec.precision < 0 { spec := spec.(precision := 0); }
      } else if At(s, k) == '*' {
        return k + 1, spec.(typ := PRECISION);
      }
    }
    read, spec := DecodeQualifier(s, k, spec);
  }

  method DecodeQualifier(s: seq<char>, k0: nat, spec0: Spec) returns (read: nat, spec: Spec)
    requires k0 <= |s| && QualifierPart(s, k0, spec0).Token?
    ensures Token(read, spec) == QualifierPart(s, k0, spec0)
  {
    var k := k0;
    spec := spec0.(qualifier := NO_QUALIFIER);
    if IsQualifier(At(s, k)) {
      spec := spec.(qualifier := At(s, k));
      k := k + 1;
      if spec.qualifier != At(s, k) {
        if spec.qualifier == 'l' {
          spec := spec.(qualifier := 'L');
          k := k + 1;
        } else if spec.qualifier == 'h' {
          spec := spec.(qualifier := 'H');
          k := k + 1;
        }
      }
    }
    var t := ConversionPart(s, k, spec);
    read, spec := t.read, t.spec;
  }

  // ---- Strings and characters ----

  /** Where `while (len < field_width--)` leaves the counter: the failing test counts too. */
  function AfterPadTo(width: Int16, len: nat): Int16 {
    if width > len then len - 1 else ToInt16(width - 1)
  }

  method PadTo(sink: Sink, len: nat, width0: Int16) returns (width: Int16)
    requires sink.Valid()
    modifies sink, sink.buf
    ensures sink.Valid() && sink.out == old(sink.out) + Fill(' ', width0 - len)
    ensures width == AfterPadTo(width0, len)
  {
    width := width0;
    while len < width
      invariant sink.Valid() && width <= width0 && (if width0 > len then len <= width else width == width0)
      invariant sink.out == old(sink.out) + Fill(' ', width0 - width)
      decreases width
    {
      width := ToInt16(width - 1);
      sink.Put(' ');
    }
    width := ToInt16(width - 1);
  }

  method Strnlen(s: CString, precision: Int16) returns (len: nat)
    ensures len == Shown(s, precision)
  {
    len := if 0 <= precision < |s| then precision else |s|;
  }

  /** The first `len` characters. */
  method PutFirst(sink: Sink, s: CString, len: nat)
    requires sink.Valid() && len <= |s|
    modifies sink, sink.buf
    ensures sink.Valid() && sink.out == old(sink.out) + s[..len]
  {
    for i := 0 to len
      invariant sink.Valid() && sink.out == old(sink.out) + s[..i]
    {
      sink.Put(s[i]);
    }
  }

  method PutString(sink: Sink, arg: Arg, spec: Spec)
    requires sink.Valid() && !arg.IntArg?
    modifies sink, sink.buf
    ensures sink.Valid()
    ensures sink.out == old(sink.out) + StringText(if arg.NullArg? then NULL_TEXT else arg.s, spec)
  {
    var s: CString := if arg.NullArg? then NULL_TEXT else arg.s;
    var len := Strnlen(s, spec.precision);
    var width := spec.fieldWidth;
    if !spec.flags.left {
      width := PadTo(sink, len, width);
    }
    PutFirst(sink, s, len);
    ghost var rest := Fill(' ', width - len);
    width := PadTo(sink, len, width);
    if spec.flags.left {
      Associate(old(sink.out), s[..len], rest);
    } else {
      Associate(old(sink.out), Fill(' ', spec.fieldWidth - len), s[..len]);
      Associate(old(sink.out), Fill(' ', spec.fieldWidth - len) + s[..len], rest);
    }
  }

  /** `while (--field_width > 0)`. */
  method PadBefore(sink: Sink, width0: Int16) returns (width: Int16)
    requires sink.Valid()
    modifies sink, sink.buf
    ensures sink.Valid() && sink.out == old(sink.out) + Fill(' ', CharPads(width0))
    ensures width == AfterCharPad(width0)
  {
    width := ToInt16(width0 - 1);
    ghost var n := CharPads(width0);
    while width > 0
      invariant sink.Valid() && if n == 0 then width == AfterCharPad(width0) else 0 <= width <= n
      invariant sink.out == old(sink.out) + Fill(' ', if n == 0 then 0 else n - width)
      decreases width
    {
      sink.Put(' ');
      width := ToInt16(width - 1);
    }
  }

  method PutChar(sink: Sink, c: char, spec: Spec)
    requires sink.Valid()
    modifies sink, sink.buf
    ensures sink.Valid() && sink.out == old(sink.out) + CharText(c, spec)
  {
    var width := spec.fieldWidth;
    if !spec.flags.left {
      width := PadBefore(sink, width);
    }
    sink.Put(c);
    ghost var rest := Fill(' ', CharPads(width));
    width := PadBefore(sink, width);
    if spec.flags.left {
      Associate(old(sink.out), [c], rest);
    } else {
      Associate(old(sink.out), Fill(' ', CharPads(spec.fieldWidth)), [c]);
      Associate(old(sink.out), Fill(' ', CharPads(spec.fieldWidth)) + [c], rest);
    }
  }

  // ---- The loop ----

  /** The switch on the token's type. */
  method Emit(sink: Sink, spec0: Spec, literal: seq<char>, args0: seq<Arg>) returns (spec: Spec, args: seq<Arg>)
    requires sink.Valid() && TokenStep(spec0, literal, args0).Some?
    modifies sink, sink.buf
    ensures sink.Valid()
    ensures var r := TokenStep(spec0, literal, args0).value;
            spec == r.spec && args == r.args && sink.out == old(sink.out) + r.text
  {
    spec, args := spec0, args0;
    if spec.typ == NONE {
      sink.Copy(literal);
    } else if spec.typ == WIDTH {
      spec := spec.(fieldWidth := ToInt16(args[0].v));
      args := args[1..];
    } else if spec.typ == PRECISION {
      spec := spec.(precision := ToInt16(args[0].v));
      args := args[1..];
    } else if spec.typ == PTR {
      assert sink.out + "" == sink.out;
    } else if spec.typ == PERCENT_CHAR || spec.typ == INVALID {
      sink.Put('%');
    } else {
      assert args == [args[0]] + args[1..] && args[1..] == ([args[0]] + args[1..])[1..];
      EmitArgument(sink, spec, literal, args[0], args[1..]);
      args := args[1..];
    }
  }

  /** The cases that print one argument. */
  method EmitArgument(sink: Sink, spec: Spec, ghost literal: seq<char>, arg: Arg, ghost rest: seq<Arg>)
    requires sink.Valid() && spec.typ !in {NONE, WIDTH, PRECISION, PTR, PERCENT_CHAR, INVALID}
    requires TokenStep(spec, literal, [arg] + rest).Some?
    modifies sink, sink.buf
    ensures sink.Valid()
    ensures sink.out == old(sink.out) + TokenStep(spec, literal, [arg] + rest).value.text
  {
    if spec.typ == CHAR {
      PutChar(sink, (arg.v % 256) as char, spec);
    } else if spec.typ == STR {
      PutString(sink, arg, spec);
    } else {
      Number(sink, NumArg(spec.typ, arg.v), spec);
    }
  }

  /** A 32-bit difference as an int. */
  function ToInt32(x: int): (r: int)
    ensures 0 <= x < 0x8000_0000 ==> r == x
  {
    (x + 0x8000_0000) % 0x1_0000_0000 - 0x8000_0000
  }

  /** One round: decode a token and write what it stands for. */
  method Round(sink: Sink, fmt: CString, at0: nat, spec0: Spec, args0: seq<Arg>)
    returns (at: nat, spec: Spec, args: seq<Arg>)
    requires sink.Valid() && at0 < |fmt| && Render(fmt[at0..], spec0, args0).Some?
    modifies sink, sink.buf
    ensures sink.Valid() && at0 <= at <= |fmt|
    ensures Render(fmt[at..], spec, args).Some?
    ensures sink.out + Render(fmt[at..], spec, args).value == old(sink.out) + Render(fmt[at0..], spec0, args0).value
    ensures at > at0 || Awaiting(spec) < Awaiting(spec0)
  {
    var s := fmt[at0..];
    RenderUnfold(s, spec0, args0);
    var read;
    read, spec := FormatDecode(s, spec0);
    at := at0 + read;
    assert s[read..] == fmt[at..];
    ghost var text := TokenStep(spec, s[..read], args0).value.text;
    spec, args := Emit(sink, spec, s[..read], args0);
    Associate(old(sink.out), text, Render(fmt[at..], spec, args).value);
  }

  /** One round of the rendering, spelled out. */
  lemma RenderUnfold(s: seq<char>, spec: Spec, args: seq<Arg>)
    requires s != [] && Render(s, spec, args).Some?
    ensures Decode(s, spec).Token? && Decode(s, spec).read <= |s|
    ensures var t := Decode(s, spec);
            var r := TokenStep(t.spec, s[..t.read], args);
            && r.Some?
            && (t.read > 0 || Awaiting(r.value.spec) < Awaiting(spec))
            && Render(s[t.read..], r.value.spec, r.value.args).Some?
            && Render(s, spec, args).value == r.value.text + Render(s[t.read..], r.value.spec, r.value.args).value
  {
    RoundDecreases(s, spec, args);
  }

  /** The loop over the tokens. */
  method RenderInto(sink: Sink, fmt: CString, args0: seq<Arg>)
    requires sink.Valid() && sink.out == "" && Render(fmt, INIT, args0).Some?
    modifies sink, sink.buf
    ensures sink.Valid() && sink.out == Render(fmt, INIT, args0).value
  {
    var at, spec, args := 0, INIT, args0;
    assert fmt[0..] == fmt;
    while at < |fmt|
      invariant at <= |fmt| && sink.Valid() && Render(fmt[at..], spec, args).Some?
      invariant sink.out + Render(fmt[at..], spec, args).value == Render(fmt, INIT, args0).value
      decreases |fmt| - at, Awaiting(spec)
    {
      at, spec, args := Round(sink, fmt, at, spec, args);
    }
  }

  /** vsnprintf into the first `size` characters of `buf`. The full text never depends on
      `size`; the buffer gets as much of it as fits in front of a NUL, and nothing else. */
  method Vsnprintf(buf: array<char>, size: nat, fmt: CString, args: seq<Arg>) returns (len: int)
    requires size < 0x8000_0000 ==> size <= buf.Length
    requires Render(fmt, INIT, args).Some?
    modifies buf
    ensures size < 0x8000_0000 ==> len == ToInt32(|Render(fmt, INIT, args).value|)
    ensures size < 0x8000_0000 ==> Truncated(buf[..], old(buf[..]), size, Render(fmt, INIT, args).value)
    ensures size >= 0x8000_0000 ==> len == 0 && buf[..] == old(buf[..])
  {
    if size >= 0x8000_0000 { return 0; }       // (int) size < 0
    var sink := new Sink(buf, size);
    RenderInto(sink, fmt, args);
    sink.Terminate();
    len := ToInt32(sink.str);
  }

  /** vscnprintf: how many characters are really there. The length is compared as unsigned, so
      it may have wrapped; a size from 2^31 on makes vsnprintf refuse. */
  method Vscnprintf(buf: array<char>, size: nat, fmt: CString, args: seq<Arg>) returns (len: int)
    requires size < 0x1_0000_0000 && (size < 0x8000_0000 ==> size <= buf.Length)
    requires Render(fmt, INIT, args).Some?
    modifies buf
    ensures 0 < size < 0x8000_0000 ==> len == Min(|Render(fmt, INIT, args).value| % 0x1_0000_0000, size - 1)
    ensures size == 0 || size >= 0x8000_0000 ==> len == 0
    ensures size < 0x8000_0000 ==> Truncated(buf[..], old(buf[..]), size, Render(fmt, INIT, args).value)
    ensures size >= 0x8000_0000 ==> buf[..] == old(buf[..])
  {
    var i := Vsnprintf(buf, size, fmt, args);
    UnsignedAgain(|Render(fmt, INIT, args).value|);
    if i % 0x1_0000_0000 < size { return i; }
    if size != 0 { return ToInt32(size - 1); }
    return 0;
  }

  lemma UnsignedAgain(x: nat)
    ensures ToInt32(x) % 0x1_0000_0000 == x % 0x1_0000_0000
    ensures x % 0x1_0000_0000 < 0x8000_0000 ==> ToInt32(x) == x % 0x1_0000_0000
  {
  }

  /** The buffer after a bounded write: as much of the text as leaves room for the NUL, the
      NUL right after it, and what was there before everywhere from `size` on. */
  ghost predicate Truncated(after: seq<char>, before: seq<char>, size: nat, text: seq<char>)
    requires size <= |after| == |before|
  {
    var shown := Min(|text|, size - 1);
    if size == 0 then after == before
    else
      && after[..shown] == text[..shown]
      && after[shown] == '\0'
      && after[shown + 1..] == before[shown + 1..]
  }
}
