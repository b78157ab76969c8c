/** The resumable format decoder. */
module PrintfDecode {
  import opened PrintfDigits
  import opened PrintfSpec

  /** What one call yields: how far it read and the specification so far; or that it looked
      past the end of the format. */
  datatype Decoded = Overrun | Token(read: nat, spec: Spec)

  /** The k-th character of a NUL-terminated string. */
  function At(s: seq<char>, k: nat): char
    requires k <= |s|
  {
    if k < |s| then s[k] else '\0'
  }

  predicate IsDigit(c: char) {
    '0' <= c <= '9'
  }

  /** Length of the run before the first '%'. */
  function LiteralLen(s: seq<char>): (n: nat)
    ensures n <= |s|
    ensures forall i | 0 <= i < n :: s[i] != '%'
    ensures n < |s| ==> s[n] == '%'
  {
    if s == [] || s[0] == '%' then 0 else LiteralLen(s[1..]) + 1
  }

  predicate IsFlag(c: char) {
    c in {'-', '+', ' ', '#', '0'}
  }

  function SetFlag(f: Flags, c: char): Flags {
    if c == '-' then f.(left := true)
    else if c == '+' then f.(plus := true)
    else if c == ' ' then f.(space := true)
    else if c == '#' then f.(special := true)
    else if c == '0' then f.(zeropad := true)
    else f
  }

  /** Flags from place k on, and where they end. */
  function FlagsFrom(s: seq<char>, k: nat, f: Flags): (r: (Flags, nat))
    requires k <= |s|
    ensures k <= r.1 <= |s|
    decreases |s| - k
  {
    if k < |s| && IsFlag(s[k]) then FlagsFrom(s, k + 1, SetFlag(f, s[k])) else (f, k)
  }

  /** skip_atoi from place k, with the value read so far. Only its low 16 bits are ever used, so
      how its int overflows does not matter as long as it wraps. */
  function Atoi(s: seq<char>, k: nat, acc: nat): (r: (nat, nat))
    requires k <= |s|
    ensures k <= r.1 <= |s|
    ensures k < |s| && IsDigit(s[k]) ==> k < r.1
    decreases |s| - k
  {
    if k < |s| && IsDigit(s[k]) then Atoi(s, k + 1, acc * 10 + (s[k] - '0') as nat) else (acc, k)
  }

  /** Taking up again after a `*` width: a negative one means left-justified. */
  function WithWidth(spec: Spec): Spec {
    if spec.fieldWidth < 0
    then spec.(typ := NONE, fieldWidth := ToInt16(0 - spec.fieldWidth), flags := spec.flags.(left := true))
    else spec.(typ := NONE)
  }

  /** A precision below zero counts as zero, wherever it comes from. */
  function NotBelowZero(p: Int16): Int16 {
    if p < 0 then 0 else p
  }

  /** Taking up again after a `*` precision. */
  function WithPrecision(spec: Spec): Spec {
    spec.(typ := NONE, precision := NotBelowZero(spec.precision))
  }

  function Decode(s: seq<char>, spec: Spec): Decoded {
    if spec.typ == WIDTH then PrecisionPart(s, 0, WithWidth(spec))
    else if spec.typ == PRECISION then QualifierPart(s, 0, WithPrecision(spec))
    else FreshPart(s, spec.(typ := NONE))
  }

  function FreshPart(s: seq<char>, spec: Spec): Decoded {
    var n := LiteralLen(s);
    if n > 0 || s == [] then Token(n, spec)
    else
      var (f, k) := FlagsFrom(s, 1, NO_FLAGS);
      WidthPart(s, k, spec.(flags := f))
  }

  function WidthPart(s: seq<char>, k: nat, spec: Spec): Decoded
    requires k <= |s|
  {
    var spec1 := spec.(fieldWidth := -1);
    if IsDigit(At(s, k)) then
      var (w, k2) := Atoi(s, k, 0);
      PrecisionPart(s, k2, spec1.(fieldWidth := ToInt16(w)))
    else if At(s, k) == '*' then Token(k + 1, spec1.(typ := WIDTH))
    else PrecisionPart(s, k, spec1)
  }

  function PrecisionPart(s: seq<char>, k: nat, spec: Spec): Decoded
    requires k <= |s|
  {
    var spec1 := spec.(precision := -1);
    if At(s, k) != '.' then QualifierPart(s, k, spec1)
    else if IsDigit(At(s, k + 1)) then
      var (p, k2) := Atoi(s, k + 1, 0);
      QualifierPart(s, k2, spec1.(precision := NotBelowZero(ToInt16(p))))
    else if At(s, k + 1) == '*' then Token(k + 2, spec1.(typ := PRECISION))
    else QualifierPart(s, k + 1, spec1)
  }

  predicate IsQualifier(c: char) {
    c in {'h', 'l', 'L', 'z', 'Z', 't'}
  }

  /** A lone `h` or `l` becomes `H` or `L` and takes the character after it along. */
  function QualifierPart(s: seq<char>, k: nat, spec: Spec): Decoded
    requires k <= |s|
  {
    var q := At(s, k);
    if !IsQualifier(q) then ConversionPart(s, k, spec.(qualifier := NO_QUALIFIER))
    else if q != At(s, k + 1) && q in {'h', 'l'} then
      if k + 2 > |s| then Overrun
      else ConversionPart(s, k + 2, spec.(qualifier := if q == 'l' then 'L' else 'H'))
    else ConversionPart(s, k + 1, spec.(qualifier := q))
  }

  function ConversionPart(s: seq<char>, k: nat, spec0: Spec): Decoded
    requires k <= |s|
  {
    var spec := spec0.(base := 10);
    var c := At(s, k);
    if c == 'c' then Token(k + 1, spec.(typ := CHAR))
    else if c == 's' then Token(k + 1, spec.(typ := STR))
    else if c == 'p' then Token(k, spec.(typ := PTR))
    else if c == 'n' then Token(k + 1, spec.(typ := NRCHARS))
    else if c == '%' then Token(k + 1, spec.(typ := PERCENT_CHAR))
    else if c == 'o' then Token(k + 1, Integer(spec.(base := 8)))
    else if c == 'x' then Token(k + 1, Integer(spec.(base := 16, flags := spec.flags.(small := true))))
    else if c == 'X' then Token(k + 1, Integer(spec.(base := 16)))
    else if c == 'd' || c == 'i' then Token(k + 1, Integer(spec.(flags := spec.flags.(sign := true))))
    else if c == 'u' then Token(k + 1, Integer(spec))
    else Token(k, spec.(typ := INVALID))
  }

  function Integer(spec: Spec): Spec {
    var q, sign := spec.qualifier, spec.flags.sign;
    spec.(typ :=
      if q == 'L' then LONG_LONG
      else if q == 'l' then (if sign then LONG else ULONG)
      else if q == 'z' || q == 'Z' then SIZE_T
      else if q == 't' then PTRDIFF
      else if q == 'H' then (if sign then BYTE else UBYTE)
      else if q == 'h' then (if sign then SHORT else USHORT)
      else if sign then INT else UINT)
  }

  // ---- Bounds and progress ----

  predicate Resumed(spec: Spec) {
    spec.typ == WIDTH || spec.typ == PRECISION
  }

  lemma ConversionBounds(s: seq<char>, k: nat, spec: Spec)
    requires k <= |s|
    ensures var t := ConversionPart(s, k, spec); t.Token? && k <= t.read <= |s| && !Resumed(t.spec)
  {
  }

  lemma QualifierBounds(s: seq<char>, k: nat, spec: Spec)
    requires k <= |s|
    ensures var t := QualifierPart(s, k, spec);
            && (t.Overrun? <==> k + 1 == |s| && s[k] in {'h', 'l'})
            && (t.Token? ==> k <= t.read <= |s| && !Resumed(t.spec))
  {
    var q := At(s, k);
    if !IsQualifier(q) {
      ConversionBounds(s, k, spec.(qualifier := NO_QUALIFIER));
    } else if q != At(s, k + 1) && q in {'h', 'l'} {
      if k + 2 <= |s| { ConversionBounds(s, k + 2, spec.(qualifier := if q == 'l' then 'L' else 'H')); }
    } else {
      ConversionBounds(s, k + 1, spec.(qualifier := q));
    }
  }

  lemma PrecisionBounds(s: seq<char>, k: nat, spec: Spec)
    requires k <= |s|
    ensures var t := PrecisionPart(s, k, spec);
            && (t.Overrun? <==> var a := AfterPrecision(s, k); a + 1 == |s| && s[a] in {'h', 'l'})
            && (t.Token? ==> k <= t.read <= |s| && t.spec.typ != WIDTH && (t.spec.typ == PRECISION ==> k < t.read))
  {
    var spec1 := spec.(precision := -1);
    if At(s, k) != '.' {
      QualifierBounds(s, k, spec1);
    } else if IsDigit(At(s, k + 1)) {
      var (p, k2) := Atoi(s, k + 1, 0);
      QualifierBounds(s, k2, spec1.(precision := NotBelowZero(ToInt16(p))));
    } else if At(s, k + 1) != '*' {
      QualifierBounds(s, k + 1, spec1);
    }
  }

  lemma WidthBounds(s: seq<char>, k: nat, spec: Spec)
    requires 0 < k <= |s|
    ensures var t := WidthPart(s, k, spec);
            && (t.Overrun? <==> var a := AfterWidth(s, k); a + 1 == |s| && s[a] in {'h', 'l'})
            && (t.Token? ==> 0 < t.read <= |s|)
  {
    var spec1 := spec.(fieldWidth := -1);
    if IsDigit(At(s, k)) {
      var (w, k2) := Atoi(s, k, 0);
      PrecisionBounds(s, k2, spec1.(fieldWidth := ToInt16(w)));
    } else if At(s, k) != '*' {
      PrecisionBounds(s, k, spec1);
    }
  }

  /** Where the qualifier stage starts looking, or the end if this call stops before it. */
  function QualifierAt(s: seq<char>, spec: Spec): (k: nat)
    ensures k <= |s|
  {
    if spec.typ == WIDTH then AfterPrecision(s, 0)
    else if spec.typ == PRECISION then 0
    else AfterFlags(s)
  }

  function AfterFlags(s: seq<char>): (k: nat)
    ensures k <= |s|
  {
    if LiteralLen(s) > 0 || s == [] then |s| else AfterWidth(s, FlagsFrom(s, 1, NO_FLAGS).1)
  }

  function AfterWidth(s: seq<char>, k: nat): (r: nat)
    requires k <= |s|
    ensures k <= r <= |s|
  {
    if IsDigit(At(s, k)) then AfterPrecision(s, Atoi(s, k, 0).1)
    else if At(s, k) == '*' then |s|
    else AfterPrecision(s, k)
  }

  function AfterPrecision(s: seq<char>, k: nat): (r: nat)
    requires k <= |s|
    ensures k <= r <= |s|
  {
    if At(s, k) != '.' then k
    else if IsDigit(At(s, k + 1)) then Atoi(s, k + 1, 0).1
    else if At(s, k + 1) == '*' then |s|
    else k + 1
  }

  /** The decoder looks past the terminating NUL exactly when the qualifier stage meets a
      lone `h` or `l` as the last character of the format; in every other case it stops at
      or before the NUL. A call that was not resumed consumes something; a resumed one may
      consume nothing, but then it does not ask for the same argument again. */
  lemma DecodeBounds(s: seq<char>, spec: Spec)
    ensures var t := Decode(s, spec);
            && (t.Overrun? <==> var k := QualifierAt(s, spec); k + 1 == |s| && s[k] in {'h', 'l'})
            && (t.Token? ==> t.read <= |s|)
            && (t.Token? && s != [] ==> t.read > 0 || (Resumed(spec) && !Resumed(t.spec)))
  {
    if spec.typ == WIDTH {
      PrecisionBounds(s, 0, WithWidth(spec));
    } else if spec.typ == PRECISION {
      QualifierBounds(s, 0, WithPrecision(spec));
    } else {
      FreshBounds(s, spec.(typ := NONE));
    }
  }

  lemma FreshBounds(s: seq<char>, spec: Spec)
    ensures var t := FreshPart(s, spec);
            && (t.Overrun? <==> var k := AfterFlags(s); k + 1 == |s| && s[k] in {'h', 'l'})
            && (t.Token? ==> t.read <= |s|)
            && (t.Token? && s != [] ==> t.read > 0)
  {
    if LiteralLen(s) == 0 && s != [] {
      var (f, k) := FlagsFrom(s, 1, NO_FLAGS);
      WidthBounds(s, k, spec.(flags := f));
    }
  }

  // ---- Reading numbers ----

  predicate AllDigits(ds: seq<char>) {
    forall i | 0 <= i < |ds| :: IsDigit(ds[i])
  }

  /** From place k on the string is `x`, then `rest`. */
  lemma Advance(s: seq<char>, k: nat, x: seq<char>, rest: seq<char>)
    requires k <= |s| && s[k..] == x + rest
    ensures k + |x| <= |s| && s[k + |x|..] == rest && At(s, k + |x|) == At(rest, 0)
    ensures s[k..k + |x|] == x && At(s, k) == At(x + rest, 0)
  {
    assert s[k..][|x|..] == rest && s[k..][..|x|] == x;
    assert rest != [] ==> s[k..][|x|] == rest[0];
    assert s[k..] != [] ==> s[k..][0] == s[k];
  }

  lemma {:induction false} AtoiReads(s: seq<char>, k: nat, ds: seq<char>, rest: seq<char>, acc: nat)
    requires AllDigits(ds) && !IsDigit(At(rest, 0)) && k <= |s| && s[k..] == ds + rest
    ensures Atoi(s, k, acc) == (AtoiFrom(ds, acc), k + |ds|)
    decreases |ds|
  {
    Advance(s, k, ds, rest);
    if ds != [] {
      assert s[k] == s[k..][0] == ds[0];
      assert s[k + 1..] == s[k..][1..] == ds[1..] + rest;
      AtoiReads(s, k + 1, ds[1..], rest, acc * 10 + (ds[0] - '0') as nat);
    }
  }

  function AtoiFrom(ds: seq<char>, acc: nat): nat
    requires AllDigits(ds)
  {
    if ds == [] then acc else
      assert IsDigit(ds[0]);
      AtoiFrom(ds[1..], acc * 10 + (ds[0] - '0') as nat)
  }

  lemma {:induction false} AtoiFromLast(ds: seq<char>, acc: nat)
    requires |ds| > 0 && AllDigits(ds)
    ensures AtoiFrom(ds, acc) == AtoiFrom(ds[..|ds| - 1], acc) * 10 + (ds[|ds| - 1] - '0') as nat
    decreases |ds|
  {
    if |ds| > 1 {
      AtoiFromLast(ds[1..], acc * 10 + (ds[0] - '0') as nat);
      assert ds[1..][..|ds| - 2] == ds[..|ds| - 1][1..];
    }
  }

  lemma {:induction false} AtoiFromIsRead(ds: seq<char>)
    requires AllDigits(ds)
    ensures AtoiFrom(ds, 0) == Read(ds, 10)
    decreases |ds|
  {
    if ds != [] {
      AtoiFromLast(ds, 0);
      AtoiFromIsRead(ds[..|ds| - 1]);
    }
  }

  /** skip_atoi reads a run of digits, wherever it stands, as the number it spells. */
  lemma AtoiReadsNumber(s: seq<char>, k: nat, ds: seq<char>, rest: seq<char>)
    requires AllDigits(ds) && !IsDigit(At(rest, 0)) && k <= |s| && s[k..] == ds + rest
    ensures Atoi(s, k, 0) == (Read(ds, 10), k + |ds|)
  {
    AtoiReads(s, k, ds, rest, 0);
    AtoiFromIsRead(ds);
  }

  lemma DecimalDigits(n: nat, ds: seq<char>)
    requires ds == Digits(n, 10, false)
    ensures AllDigits(ds) && Read(ds, 10) == n
  {
    var rs := RevDigits(n, 10);
    RevDigitsValue(n, 10);
    forall i | 0 <= i < |ds| ensures IsDigit(ds[i]) {
      DigitCharReads(rs[|rs| - 1 - i], false);
    }
    DigitsRead(n, 10, false);
  }

  /** So it undoes the decimal printer. */
  lemma AtoiUndoesDigits(s: seq<char>, k: nat, n: nat, ds: seq<char>, rest: seq<char>)
    requires ds == Digits(n, 10, false) && !IsDigit(At(rest, 0)) && k <= |s| && s[k..] == ds + rest
    ensures Atoi(s, k, 0) == (n, k + |ds|)
  {
    DecimalDigits(n, ds);
    AtoiReadsNumber(s, k, ds, rest);
  }
}
