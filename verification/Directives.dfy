/** What a conversion specification says: its spelling, its meaning, and that `parse_format` relates the two. */
module Directives {
  import opened Bits
  import opened Options
  import opened Printf
  import opened Words

  /** A width or a precision: left out, `*`, or decimal digits; a precision may be a lone dot. */
  datatype Amount = Omitted | Starred | Written(digits: string)

  /** Section 7.21.6.1 of ISO C11, paragraph 4, without the `%`. */
  datatype Directive =
    Directive(flags: string, width: Amount, precision: Amount, length: Length, conversion: char)

  const FLAGS: string := "-+ #0"

  function WidthText(a: Amount): string {
    match a
    case Omitted => ""
    case Starred => "*"
    case Written(ds) => ds
  }

  function PrecisionText(a: Amount): string {
    if a.Omitted? then "" else "." + WidthText(a)
  }

  function LengthText(l: Length): string {
    match l
    case Plain => ""
    case HH => "hh"
    case H => "h"
    case L => "l"
    case LL => "ll"
    case LongDouble => "L"
  }

  /** The text from the length modifier on, from the precision on, from the width on, and all of it. */
  function Ending(d: Directive): (s: string)
    ensures |s| > 0
  {
    LengthText(d.length) + [d.conversion]
  }

  function FromPrecision(d: Directive): (s: string)
    ensures |s| > 0
  {
    PrecisionText(d.precision) + Ending(d)
  }

  function FromWidth(d: Directive): (s: string)
    ensures |s| > 0
  {
    WidthText(d.width) + FromPrecision(d)
  }

  function Spell(d: Directive): string {
    d.flags + FromWidth(d)
  }

  predicate FlagChars(s: string) {
    forall k :: 0 <= k < |s| ==> s[k] in FLAGS
  }

  predicate DigitChars(s: string) {
    forall k :: 0 <= k < |s| ==> IsDigit(s[k])
  }

  /** No part of the text can be taken for a longer one. */
  predicate WellSpelled(d: Directive) {
    && FlagChars(d.flags) && FromWidth(d)[0] !in FLAGS
    && WidthSpelled(d.width, FromPrecision(d)[0]) && PrecisionSpelled(d.precision, Ending(d)[0])
    && LengthSpelled(d.length, d.conversion)
  }

  predicate WidthSpelled(a: Amount, next: char) {
    match a
    case Omitted => next != '*' && !IsDigit(next)
    case Starred => true
    case Written(ds) => |ds| > 0 && DigitChars(ds) && !IsDigit(next)
  }

  predicate PrecisionSpelled(a: Amount, next: char) {
    match a
    case Omitted => next != '.'
    case Starred => true
    case Written(ds) => DigitChars(ds) && !IsDigit(next) && (ds == "" ==> next != '*')
  }

  predicate LengthSpelled(l: Length, next: char) {
    match l
    case Plain => next != 'h' && next != 'l' && next != 'L'
    case H => next != 'h'
    case L => next != 'l'
    case _ => true
  }

  /** Each `*` takes an `int` argument. */
  predicate Supplied(a: Amount, args: seq<Arg>) {
    a.Starred? ==> args != [] && args[0].Number?
  }

  function Value(a: Amount, args: seq<Arg>): int
    requires Supplied(a, args)
  {
    match a
    case Omitted => -1
    case Starred => IntOf(args[0].bits)
    case Written(ds) => ReadBack(ds, 10)
  }

  function Left(a: Amount, args: seq<Arg>): seq<Arg>
    requires Supplied(a, args)
  {
    if a.Starred? then args[1..] else args
  }

  predicate BothSupplied(d: Directive, args: seq<Arg>) {
    Supplied(d.width, args) && Supplied(d.precision, Left(d.width, args))
  }

  /** What the directive asks for: a flag is set when its character occurs. */
  function Asked(d: Directive, args: seq<Arg>): Spec
    requires BothSupplied(d, args)
  {
    Spec('-' in d.flags, '+' in d.flags, ' ' in d.flags, '#' in d.flags, '0' in d.flags,
         Value(d.width, args), Value(d.precision, Left(d.width, args)), d.length, d.conversion)
  }

  /** The arguments after those for `*`. */
  function Remaining(d: Directive, args: seq<Arg>): seq<Arg>
    requires BothSupplied(d, args)
  {
    Left(d.precision, Left(d.width, args))
  }

  /** `text` stands at position `i`. */
  ghost predicate Reads(fmt: string, i: nat, text: string) {
    i + |text| <= |fmt| && fmt[i..i + |text|] == text
  }

  lemma ReadsParts(fmt: string, i: nat, a: string, b: string)
    requires Reads(fmt, i, a + b)
    ensures Reads(fmt, i, a) && Reads(fmt, i + |a|, b)
  {
    assert fmt[i..i + |a + b|][..|a|] == a && fmt[i..i + |a + b|][|a|..] == b;
  }

  lemma ReadsFirst(fmt: string, i: nat, text: string)
    requires Reads(fmt, i, text) && |text| > 0
    ensures i < |fmt| && At(fmt, i) == fmt[i] == text[0] && Reads(fmt, i + 1, text[1..])
  {
    assert text == [text[0]] + text[1..];
    ReadsParts(fmt, i, [text[0]], text[1..]);
  }

  /** The flags that are set already and those whose characters follow. */
  function WithFlags(spec: Spec, flags: string): Spec {
    spec.(left := spec.left || '-' in flags, force := spec.force || '+' in flags, space := spec.space || ' ' in flags,
          alternate := spec.alternate || '#' in flags, zero := spec.zero || '0' in flags)
  }

  function Flagged(spec: Spec, c: char): Spec {
    if c == '-' then spec.(left := true)
    else if c == '+' then spec.(force := true)
    else if c == ' ' then spec.(space := true)
    else if c == '#' then spec.(alternate := true)
    else spec.(zero := true)
  }

  lemma FlagsStep(fmt: string, i: nat, spec: Spec)
    requires i < |fmt| && fmt[i] in FLAGS
    ensures Flags(fmt, i, spec) == Flags(fmt, i + 1, Flagged(spec, fmt[i]))
  {
  }

  lemma FlagsStop(fmt: string, i: nat, spec: Spec)
    requires i <= |fmt| && (i < |fmt| ==> fmt[i] !in FLAGS)
    ensures Flags(fmt, i, spec) == (spec, i) && At(fmt, i) !in FLAGS
  {
    assert forall k :: 0 <= k < |FLAGS| && i < |fmt| ==> fmt[i] != FLAGS[k];
    assert FLAGS[0] == '-' && FLAGS[1] == '+' && FLAGS[2] == ' ' && FLAGS[3] == '#' && FLAGS[4] == '0';
  }

  lemma {:induction false} FlagsRead(fmt: string, i: nat, flags: string, spec: Spec)
    requires Reads(fmt, i, flags) && FlagChars(flags) && At(fmt, i + |flags|) !in FLAGS
    ensures Flags(fmt, i, spec) == (WithFlags(spec, flags), i + |flags|)
    decreases |flags|
  {
    hide Flags, Reads, WithFlags, Flagged, At;
    if flags == "" {
      NoFlags(fmt, i, spec);
    } else {
      ReadsFirst(fmt, i, flags);
      FlagsStep(fmt, i, spec);
      FlagsRead(fmt, i + 1, flags[1..], Flagged(spec, flags[0]));
      OneFlag(spec, flags[0], flags[1..]);
      assert flags == [flags[0]] + flags[1..];
    }
  }

  lemma NoFlags(fmt: string, i: nat, spec: Spec)
    requires Reads(fmt, i, "") && At(fmt, i) !in FLAGS
    ensures Flags(fmt, i, spec) == (WithFlags(spec, ""), i)
  {
    hide Flags;
    FlagsStop(fmt, i, spec);
  }

  lemma OneFlag(spec: Spec, c: char, flags: string)
    requires c in FLAGS
    ensures WithFlags(Flagged(spec, c), flags) == WithFlags(spec, [c] + flags)
  {
    assert forall x :: x in [c] + flags <==> x == c || x in flags;
  }

  /** The digit loop reads a number; `before` are the digits it has read already. */
  lemma {:induction false} DecimalRead(fmt: string, i: nat, before: string, ds: string)
    requires Reads(fmt, i, ds) && DigitChars(ds) && !IsDigit(At(fmt, i + |ds|))
    ensures Decimal(fmt, i, ReadBack(before, 10)) == (ReadBack(before + ds, 10), i + |ds|)
    decreases |ds|
  {
    if ds == "" {
      assert before + ds == before;
    } else {
      ReadsFirst(fmt, i, ds);
      ReadBackStep(before, ds[0], 10);
      assert before + ds == before + [ds[0]] + ds[1..];
      DecimalRead(fmt, i + 1, before + [ds[0]], ds[1..]);
    }
  }

  lemma WidthRead(fmt: string, i: nat, a: Amount, args: seq<Arg>)
    requires Reads(fmt, i, WidthText(a)) && WidthSpelled(a, At(fmt, i + |WidthText(a)|))
    ensures Width(fmt, i, args) ==
            if Supplied(a, args) then Some(Scan(Value(a, args), i + |WidthText(a)|, Left(a, args))) else None
  {
    hide ReadBack, Decimal, Reads, IntOf;
    match a
    case Omitted =>
    case Starred =>
      ReadsFirst(fmt, i, "*");
    case Written(ds) =>
      ReadsFirst(fmt, i, ds);
      NumberRead(fmt, i, ds);
  }

  lemma NumberRead(fmt: string, i: nat, ds: string)
    requires Reads(fmt, i, ds) && DigitChars(ds) && !IsDigit(At(fmt, i + |ds|))
    ensures Decimal(fmt, i, 0) == (ReadBack(ds, 10), i + |ds|)
  {
    DecimalRead(fmt, i, "", ds);
    assert "" + ds == ds;
  }

  lemma DotRead(fmt: string, i: nat, text: string)
    requires Reads(fmt, i, "." + text)
    ensures At(fmt, i) == '.' && Reads(fmt, i + 1, text)
  {
    ReadsFirst(fmt, i, "." + text);
    assert ("." + text)[1..] == text;
  }

  lemma PrecisionRead(fmt: string, i: nat, a: Amount, args: seq<Arg>)
    requires Reads(fmt, i, PrecisionText(a)) && PrecisionSpelled(a, At(fmt, i + |PrecisionText(a)|))
    ensures Precision(fmt, i, args) ==
            if Supplied(a, args) then Some(Scan(Value(a, args), i + |PrecisionText(a)|, Left(a, args))) else None
  {
    hide ReadBack, Decimal, Reads, IsDigit, DigitChars, IntOf;
    match a
    case Omitted =>
    case Starred =>
      StarRead(fmt, i);
    case Written(ds) =>
      DotRead(fmt, i, ds);
      PrecisionDigits(fmt, i, ds);
  }

  lemma StarRead(fmt: string, i: nat)
    requires Reads(fmt, i, "." + "*")
    ensures At(fmt, i) == '.' && At(fmt, i + 1) == '*'
  {
    hide At;
    DotRead(fmt, i, "*");
    ReadsFirst(fmt, i + 1, "*");
  }

  lemma PrecisionDigits(fmt: string, i: nat, ds: string)
    requires Reads(fmt, i + 1, ds) && DigitChars(ds) && !IsDigit(At(fmt, i + 1 + |ds|))
    requires ds == "" ==> At(fmt, i + 1) != '*'
    ensures At(fmt, i + 1) != '*' && Decimal(fmt, i + 1, 0) == (ReadBack(ds, 10), i + 1 + |ds|)
  {
    hide ReadBack, Decimal, Reads;
    NumberRead(fmt, i + 1, ds);
    if ds != "" {
      ReadsFirst(fmt, i + 1, ds);
    }
  }

  lemma LengthRead(fmt: string, i: nat, l: Length)
    requires Reads(fmt, i, LengthText(l)) && LengthSpelled(l, At(fmt, i + |LengthText(l)|))
    ensures LengthAt(fmt, i) == (l, i + |LengthText(l)|)
  {
    var t := LengthText(l);
    if |t| > 0 {
      ReadsFirst(fmt, i, t);
      if |t| > 1 {
        ReadsFirst(fmt, i + 1, t[1..]);
      }
    }
  }

  /** Where the parts of a directive stand, and which character follows each. */
  lemma PartsRead(fmt: string, i: nat, d: Directive)
    requires WellSpelled(d) && Reads(fmt, i, Spell(d))
    ensures var j := i + |d.flags|; var k := j + |WidthText(d.width)|; var n := k + |PrecisionText(d.precision)|;
      var m := n + |LengthText(d.length)|;
      && Reads(fmt, i, d.flags) && At(fmt, j) == FromWidth(d)[0]
      && Reads(fmt, j, WidthText(d.width)) && At(fmt, k) == FromPrecision(d)[0]
      && Reads(fmt, k, PrecisionText(d.precision)) && At(fmt, n) == Ending(d)[0]
      && Reads(fmt, n, LengthText(d.length)) && m < |fmt| && At(fmt, m) == fmt[m] == d.conversion
      && m + 1 == i + |Spell(d)|
  {
    hide WidthText, PrecisionText, LengthText, WellSpelled, Reads, At;
    var j := i + |d.flags|;
    var k := j + |WidthText(d.width)|;
    var n := k + |PrecisionText(d.precision)|;
    PartRead(fmt, i, d.flags, FromWidth(d));
    PartRead(fmt, j, WidthText(d.width), FromPrecision(d));
    PartRead(fmt, k, PrecisionText(d.precision), Ending(d));
    PartRead(fmt, n, LengthText(d.length), [d.conversion]);
  }

  lemma PartRead(fmt: string, i: nat, a: string, b: string)
    requires Reads(fmt, i, a + b) && |b| > 0
    ensures Reads(fmt, i, a) && Reads(fmt, i + |a|, b)
    ensures i + |a| < |fmt| && At(fmt, i + |a|) == fmt[i + |a|] == b[0]
  {
    hide Reads, At;
    ReadsParts(fmt, i, a, b);
    ReadsFirst(fmt, i + |a|, b);
  }

  /** `parse_format` on a directive: it asks for what its text says, or an argument for a `*` is missing. */
  lemma DirectiveParses(fmt: string, i: nat, args: seq<Arg>, d: Directive)
    requires WellSpelled(d) && Reads(fmt, i, Spell(d))
    ensures Parse(fmt, i, args) ==
            if BothSupplied(d, args) then Some(Parsed(Asked(d, args), i + |Spell(d)|, Remaining(d, args))) else None
  {
    hide Width, Precision, LengthAt, Flags, WidthText, PrecisionText, LengthText, Value, Left, FlagChars, Reads, Spell,
      WidthSpelled, PrecisionSpelled, LengthSpelled, FromWidth, FromPrecision, Ending, At, Supplied;
    PartsRead(fmt, i, d);
    var j := i + |d.flags|;
    var k := j + |WidthText(d.width)|;
    var n := k + |PrecisionText(d.precision)|;
    FlagsRead(fmt, i, d.flags, BLANK);
    WidthRead(fmt, j, d.width, args);
    if Supplied(d.width, args) {
      PrecisionRead(fmt, k, d.precision, Left(d.width, args));
    }
    LengthRead(fmt, n, d.length);
  }

  lemma ReadsJoin(fmt: string, i: nat, a: string, b: string)
    requires Reads(fmt, i, a) && Reads(fmt, i + |a|, b)
    ensures Reads(fmt, i, a + b)
  {
    assert fmt[i..i + |a + b|] == fmt[i..i + |a|] + fmt[i + |a|..i + |a| + |b|];
  }

  lemma {:induction false} FlagsSplit(fmt: string, i: nat, spec: Spec)
    requires i <= |fmt|
    ensures var j := Flags(fmt, i, spec).1;
      j <= |fmt| && FlagChars(fmt[i..j]) && At(fmt, j) !in FLAGS
    decreases |fmt| - i
  {
    var j := Flags(fmt, i, spec).1;
    if i < |fmt| && fmt[i] in FLAGS {
      FlagsSplit(fmt, i + 1, Flagged(spec, fmt[i]));
      FlagsStep(fmt, i, spec);
      assert fmt[i..j] == [fmt[i]] + fmt[i + 1..j];
    } else {
      FlagsStop(fmt, i, spec);
    }
  }

  lemma {:induction false} DecimalSplit(fmt: string, i: nat, v: nat)
    requires i <= |fmt|
    ensures var j := Decimal(fmt, i, v).1;
      j <= |fmt| && DigitChars(fmt[i..j]) && !IsDigit(At(fmt, j)) && (i < |fmt| && IsDigit(fmt[i]) ==> i < j)
    decreases |fmt| - i
  {
    if i < |fmt| && IsDigit(fmt[i]) {
      var j := Decimal(fmt, i, v).1;
      DecimalSplit(fmt, i + 1, v * 10 + (fmt[i] as int - '0' as int));
      assert fmt[i..j] == [fmt[i]] + fmt[i + 1..j];
    }
  }

  lemma WidthSplit(fmt: string, i: nat, args: seq<Arg>) returns (a: Amount)
    requires i <= |fmt| && Width(fmt, i, args).Some?
    ensures var w := Width(fmt, i, args).value;
      && w.next <= |fmt| && Reads(fmt, i, WidthText(a)) && w.next == i + |WidthText(a)|
      && WidthSpelled(a, At(fmt, w.next)) && Supplied(a, args) && w.args == Left(a, args)
  {
    hide Decimal, IntOf, DigitChars;
    if At(fmt, i) == '*' {
      a := Starred;
    } else if IsDigit(At(fmt, i)) {
      DecimalSplit(fmt, i, 0);
      a := Written(fmt[i..Decimal(fmt, i, 0).1]);
    } else {
      a := Omitted;
    }
  }

  lemma PrecisionSplit(fmt: string, i: nat, args: seq<Arg>) returns (a: Amount)
    requires i <= |fmt| && Precision(fmt, i, args).Some?
    ensures var p := Precision(fmt, i, args).value;
      && p.next <= |fmt| && Reads(fmt, i, PrecisionText(a)) && p.next == i + |PrecisionText(a)|
      && PrecisionSpelled(a, At(fmt, p.next)) && Supplied(a, args) && p.args == Left(a, args)
  {
    hide Decimal, IntOf, DigitChars, IsDigit;
    if At(fmt, i) != '.' {
      a := Omitted;
    } else if At(fmt, i + 1) == '*' {
      a := Starred;
      assert Reads(fmt, i, ".*");
    } else {
      DecimalSplit(fmt, i + 1, 0);
      var next := Decimal(fmt, i + 1, 0).1;
      a := Written(fmt[i + 1..next]);
      assert Reads(fmt, i, ".") && Reads(fmt, i + 1, fmt[i + 1..next]);
      ReadsJoin(fmt, i, ".", fmt[i + 1..next]);
    }
  }

  lemma LengthSplit(fmt: string, i: nat)
    requires LengthAt(fmt, i).1 < |fmt|
    ensures var (l, n) := LengthAt(fmt, i);
      Reads(fmt, i, LengthText(l)) && n == i + |LengthText(l)| && LengthSpelled(l, fmt[n])
  {
  }

  /** At position `i` stands the directive `d`, and `p` is what it asks for and what follows it. */
  ghost predicate Means(fmt: string, i: nat, args: seq<Arg>, d: Directive, p: Parsed) {
    && WellSpelled(d) && Reads(fmt, i, Spell(d)) && BothSupplied(d, args)
    && p == Parsed(Asked(d, args), i + |Spell(d)|, Remaining(d, args))
  }

  /** The converse: whatever `parse_format` accepts is the text of a directive, and it is taken to ask for just that. */
  lemma ParseSpells(fmt: string, i: nat, args: seq<Arg>) returns (d: Directive)
    requires Parse(fmt, i, args).Some?
    ensures Means(fmt, i, args, d, Parse(fmt, i, args).value)
  {
    hide Flags, LengthAt, Width, Precision, WidthText, PrecisionText, LengthText, WidthSpelled, PrecisionSpelled,
      LengthSpelled, FlagChars, At, Supplied, Left, Value, Reads;
    InFormat(fmt, i, args);
    var (spec, j) := Flags(fmt, i, BLANK);
    FlagsSplit(fmt, i, BLANK);
    var a := WidthSplit(fmt, j, args);
    var w := Width(fmt, j, args).value;
    var b := PrecisionSplit(fmt, w.next, w.args);
    var p := Precision(fmt, w.next, w.args).value;
    var (l, n) := LengthAt(fmt, p.next);
    LengthSplit(fmt, p.next);
    d := Directive(fmt[i..j], a, b, l, fmt[n]);
    Assembled(fmt, i, j, w.next, p.next, n, d);
    DirectiveParses(fmt, i, args, d);
  }

  lemma InFormat(fmt: string, i: nat, args: seq<Arg>)
    requires Parse(fmt, i, args).Some?
    ensures i < |fmt|
  {
  }

  lemma Assembled(fmt: string, i: nat, j: nat, k: nat, m: nat, n: nat, d: Directive)
    requires i <= j <= k <= m <= n < |fmt|
    requires d.flags == fmt[i..j] && FlagChars(d.flags) && At(fmt, j) !in FLAGS
    requires Reads(fmt, j, WidthText(d.width)) && k == j + |WidthText(d.width)| && WidthSpelled(d.width, At(fmt, k))
    requires Reads(fmt, k, PrecisionText(d.precision)) && m == k + |PrecisionText(d.precision)|
    requires PrecisionSpelled(d.precision, At(fmt, m))
    requires Reads(fmt, m, LengthText(d.length)) && n == m + |LengthText(d.length)|
    requires d.conversion == fmt[n] && LengthSpelled(d.length, fmt[n])
    ensures WellSpelled(d) && Reads(fmt, i, Spell(d))
  {
    hide WidthText, PrecisionText, LengthText, WidthSpelled, PrecisionSpelled, LengthSpelled, FlagChars, Reads, At;
    OneChar(fmt, n);
    ReadsJoin(fmt, m, LengthText(d.length), [d.conversion]);
    ReadsJoin(fmt, k, PrecisionText(d.precision), Ending(d));
    ReadsJoin(fmt, j, WidthText(d.width), FromPrecision(d));
    SliceReads(fmt, i, j);
    ReadsJoin(fmt, i, d.flags, FromWidth(d));
    ReadsFirst(fmt, m, Ending(d));
    ReadsFirst(fmt, k, FromPrecision(d));
    ReadsFirst(fmt, j, FromWidth(d));
  }

  lemma OneChar(fmt: string, n: nat)
    requires n < |fmt|
    ensures Reads(fmt, n, [fmt[n]])
  {
  }

  lemma SliceReads(fmt: string, i: nat, j: nat)
    requires i <= j <= |fmt|
    ensures Reads(fmt, i, fmt[i..j])
  {
  }

  /** The conversions that the code knows, each of which ends a directive whatever comes before it. */
  const CONVERSIONS: string := "diouxXsc%"

  lemma UsualSpelled(d: Directive)
    requires FlagChars(d.flags) && d.conversion in CONVERSIONS
    requires d.width.Written? ==> |d.width.digits| > 0 && DigitChars(d.width.digits) && d.width.digits[0] != '0'
    requires d.precision.Written? ==> DigitChars(d.precision.digits)
    ensures WellSpelled(d)
  {
  }

  /** A width or precision given as a number. */
  function Numbered(n: nat): Amount {
    Written(Digits(n, 10, false))
  }

  lemma NumberedValue(n: nat, args: seq<Arg>)
    ensures Supplied(Numbered(n), args) && Value(Numbered(n), args) == n && DigitChars(Numbered(n).digits)
    ensures |Numbered(n).digits| > 0 && (n > 0 ==> Numbered(n).digits[0] != '0')
  {
    hide Digits, ReadBack;
    DigitsReadBack(n, 10, false);
    DigitsInBase(n, 10, false);
    DecimalChars(Digits(n, 10, false));
    LeadingDigit(n, 10, false);
  }

  lemma DecimalChars(s: string)
    requires AllDigits(s, 10)
    ensures DigitChars(s)
  {
    forall k | 0 <= k < |s|
      ensures IsDigit(s[k])
    {
      assert IsDigitOf(s[k], 10);
    }
  }

  /** A directive with a width and a precision in figures asks for that width and that precision. */
  lemma FiguresParse(fmt: string, i: nat, args: seq<Arg>, flags: string, w: nat, p: nat, l: Length, c: char)
    requires FlagChars(flags) && w > 0 && c in CONVERSIONS
    requires Reads(fmt, i, flags + (Digits(w, 10, false) + ("." + Digits(p, 10, false) + (LengthText(l) + [c]))))
    ensures var text := flags + (Digits(w, 10, false) + ("." + Digits(p, 10, false) + (LengthText(l) + [c])));
      var spec := Spec('-' in flags, '+' in flags, ' ' in flags, '#' in flags, '0' in flags, w, p, l, c);
      Parse(fmt, i, args) == Some(Parsed(spec, i + |text|, args))
  {
    var d := Directive(flags, Numbered(w), Numbered(p), l, c);
    NumberedValue(w, args);
    NumberedValue(p, args);
    hide Digits, ReadBack, Reads, Parse, LengthText, FlagChars, DigitChars, WellSpelled;
    UsualSpelled(d);
    DirectiveParses(fmt, i, args, d);
  }

  /** The value of an integer argument, by the conversion and the length modifier. */
  function Argument(d: Directive, bits: DWord, longBits: nat): int {
    if IsSigned(d.conversion) then SignedArg(bits, d.length, longBits) else UnsignedArg(bits, d.length, longBits)
  }

  /** How many bits of the argument count, by the text of the length modifier. */
  function BitCount(modifier: string, longBits: nat): nat {
    if modifier == "hh" then 8 else if modifier == "h" then 16 else if modifier == "l" then longBits
    else if modifier == "ll" then 64 else 32
  }

  /** `x` is what those bits stand for: in two's complement for `d` and `i`, unsigned for `u`, `o`, `x` and `X`. */
  ghost predicate StandsFor(conversion: char, n: nat, bits: DWord, x: int)
    requires n > 0
  {
    && Congruent(x, bits, Pow2(n))
    && if conversion == 'd' || conversion == 'i' then 0 - Pow2(n - 1) as int <= x < Pow2(n - 1) else 0 <= x < Pow2(n)
  }

  lemma ArgumentExactly(d: Directive, bits: DWord, longBits: nat, x: int)
    requires 0 < longBits <= 64 && (IsSigned(d.conversion) || IsUnsigned(d.conversion))
    ensures var n := BitCount(LengthText(d.length), longBits);
      StandsFor(d.conversion, n, bits, x) <==> x == Argument(d, bits, longBits)
  {
    var n := BitCount(LengthText(d.length), longBits);
    ModifierBits(d.length, bits, longBits);
    hide Pow2, SignedBits, SignedArg, UnsignedArg, BitCount, Congruent;
    CongruentTurned(x, bits, Pow2(n));
    if IsSigned(d.conversion) {
      SignedValue(bits, n, x);
    } else {
      UnsignedValue(bits, n, x);
    }
  }

  lemma CongruentTurned(x: int, y: int, m: int)
    ensures Congruent(x, y, m) <==> Congruent(y, x, m)
  {
    if k: int :| x == y + k * m {
      assert y == x + -k * m;
    }
    if k: int :| y == x + k * m {
      assert x == y + -k * m;
    }
  }

  lemma UnsignedValue(bits: DWord, n: nat, x: int)
    ensures 0 <= x < Pow2(n) && Congruent(x, bits, Pow2(n)) <==> x == bits % Pow2(n)
  {
    if 0 <= x < Pow2(n) {
      CongruentExactly(x, bits, Pow2(n));
    }
    hide Pow2;
  }

  lemma ModifierBits(l: Length, bits: DWord, longBits: nat)
    requires 0 < longBits <= 64
    ensures var n := BitCount(LengthText(l), longBits);
      && 0 < n <= 64
      && SignedArg(bits, l, longBits) == SignedBits(bits, n) && UnsignedArg(bits, l, longBits) == bits % Pow2(n)
  {
    WordPowers();
    assert Pow2(8) == 256;
    hide Pow2, SignedBits;
    assert bits % WW == bits;
  }

  /**
   * A field of width `w` and precision `p`: blanks, the sign, zeros, the digits of the number without leading zeros,
   * and blanks. The zeros fill up to the precision, or with the zero flag up to the width; otherwise blanks do, behind
   * the digits when the field is justified to the left.
   */
  ghost predicate Laid(field: string, sign: string, num: nat, base: nat, w: int, p: int, left: bool, zero: bool) {
    exists before: nat, zeros: nat, ds: string, after: nat ::
      && field == Repeat(' ', before) + sign + Repeat('0', zeros) + ds + Repeat(' ', after)
      && |ds| > 0 && AllDigits(ds, base) && ReadBack(ds, base) == num && (ds[0] == '0' ==> ds == "0")
      && before + |sign| + zeros + |ds| + after == Max(w, |sign| + Max(p, |ds|))
      && (left ==> before == 0) && (!left ==> after == 0) && (!left && zero ==> before == 0)
      && (left || !zero ==> zeros == Max(p - |ds|, 0))
  }

  /**
   * An integer directive in a format, from its text to its field: `x` is what the argument stands for, `w` and `p` the
   * width and the precision that the text or the arguments before give. The field shows `x`, is laid out as these and
   * the flags ask for, and the rest of the format follows.
   */
  lemma RenderDirective(fmt: string, i: nat, args: seq<Arg>, longBits: nat, d: Directive)
    returns (field: string, x: int)
    requires Reads(fmt, i, "%" + Spell(d)) && WellSpelled(d) && d.conversion in "diuoxX" && 0 < longBits <= 64
    requires BothSupplied(d, args) && Remaining(d, args) != [] && Remaining(d, args)[0].Number?
    ensures StandsFor(d.conversion, BitCount(LengthText(d.length), longBits), Remaining(d, args)[0].bits, x)
    ensures var w, p := Value(d.width, args), Value(d.precision, Left(d.width, args));
      var sign := if x < 0 then "-" else if '+' in d.flags then "+" else if ' ' in d.flags then " " else "";
      var base := if d.conversion == 'o' then 8 else 10;
      && Laid(field, sign, Magnitude(x), base, w, p, '-' in d.flags, '0' in d.flags)
      && Shows(field, sign, Magnitude(x), base)
    ensures Follows(fmt, i, args, longBits, d, field, Remaining(d, args)[1..])
  {
    IntegerConversions(d.conversion);
    hide *;
    var spec, a := Asked(d, args), Remaining(d, args);
    x := Argument(d, a[0].bits, longBits);
    ModifierBits(d.length, a[0].bits, longBits);
    ArgumentExactly(d, a[0].bits, longBits, x);
    field := IntegerField(spec, Magnitude(x), x < 0);
    IntegerText(d, args, longBits, field);
    FieldFollows(fmt, i, args, longBits, d, Field(field, a[1..]));
    FieldFacts(d, args, x);
  }

  lemma IntegerConversions(c: char)
    ensures c in "diuoxX" <==> IsSigned(c) || IsUnsigned(c)
  {
    assert forall k :: 0 <= k < 6 && c == "diuoxX"[k] ==> IsSigned(c) || IsUnsigned(c);
    assert "diuoxX"[0] == 'd' && "diuoxX"[1] == 'i' && "diuoxX"[2] == 'u';
    assert "diuoxX"[3] == 'o' && "diuoxX"[4] == 'x' && "diuoxX"[5] == 'X';
  }

  /** At `i` the directive renders to `field`, and the rest of the format follows with the arguments `rest`. */
  ghost predicate Follows(fmt: string, i: nat, args: seq<Arg>, longBits: nat, d: Directive, field: string,
                          rest: seq<Arg>)
  {
    Render(fmt, i, args, longBits) == Before(field, Render(fmt, i + 1 + |Spell(d)|, rest, longBits))
  }

  /** The text in front of what follows, if that can be rendered. */
  function Before(text: string, more: Option<string>): Option<string> {
    if more.None? then None else Some(text + more.value)
  }

  lemma BeforeTwice(a: string, b: string, more: Option<string>)
    ensures Before(a, Before(b, more)) == Before(a + b, more) && Before("", more) == more
  {
    if more.Some? {
      assert a + (b + more.value) == a + b + more.value && "" + more.value == more.value;
    }
  }

  /** `n` characters of `s` and so many blanks are the field that width, precision and `-` ask for. */
  predicate Padded(field: string, s: string, n: nat, blanks: nat, w: int, p: int, left: bool) {
    && n <= |s| && (p < 0 ==> n == |s|) && (p >= 0 ==> n <= p && (n == p || n == |s|))
    && n + blanks == Max(w, n)
    && field == if left then s[..n] + Repeat(' ', blanks) else Repeat(' ', blanks) + s[..n]
  }

  lemma FieldFollows(fmt: string, i: nat, args: seq<Arg>, longBits: nat, d: Directive, f: Field)
    requires Reads(fmt, i, "%" + Spell(d)) && WellSpelled(d) && BothSupplied(d, args)
    requires FieldOf(Asked(d, args), Remaining(d, args), longBits) == Some(f)
    ensures Follows(fmt, i, args, longBits, d, f.text, f.args)
  {
    hide FieldOf, Asked, Remaining, Spell, Reads, Render, Parse, WellSpelled, BothSupplied;
    PercentFirst(fmt, i, Spell(d));
    DirectiveParses(fmt, i + 1, args, d);
    OneField(fmt, i, args, longBits, Parsed(Asked(d, args), i + 1 + |Spell(d)|, Remaining(d, args)), f);
  }

  /**
   * `%s`: the characters of the string, no more than the precision if there is one, padded with blanks to the width, on
   * the left unless `-` is given. A null pointer reads `(null)`.
   */
  lemma RenderString(fmt: string, i: nat, args: seq<Arg>, longBits: nat, d: Directive) returns (field: string)
    requires Reads(fmt, i, "%" + Spell(d)) && WellSpelled(d) && d.conversion == 's'
    requires BothSupplied(d, args) && Remaining(d, args) != [] && Remaining(d, args)[0].Text?
    ensures var t := Remaining(d, args)[0].text; var s := if t.Some? then t.value else "(null)";
      var w, p := Value(d.width, args), Value(d.precision, Left(d.width, args));
      exists n: nat, blanks: nat :: Padded(field, s, n, blanks, w, p, '-' in d.flags)
    ensures Follows(fmt, i, args, longBits, d, field, Remaining(d, args)[1..])
  {
    hide Remaining, Value, Spell, Reads, WellSpelled, Follows;
    var t := Remaining(d, args)[0].text;
    var s := if t.Some? then t.value else "(null)";
    var w, p := Value(d.width, args), Value(d.precision, Left(d.width, args));
    field := StringField(Asked(d, args), s);
    FieldFollows(fmt, i, args, longBits, d, Field(field, Remaining(d, args)[1..]));
    var n, blanks := StringPadded(Asked(d, args), s);
    hide Padded, StringField;
  }

  lemma StringPadded(spec: Spec, s: string) returns (n: nat, blanks: nat)
    ensures Padded(StringField(spec, s), s, n, blanks, spec.width, spec.precision, spec.left)
  {
    n := if 0 <= spec.precision < |s| then spec.precision else |s|;
    blanks := Max(spec.width - n, 0);
    assert Repeat(' ', spec.width - n) == Repeat(' ', blanks);
    assert s[..|s|] == s;
  }

  /** `%c`: one character, the low byte of the argument; neither width nor precision count. */
  lemma RenderChar(fmt: string, i: nat, args: seq<Arg>, longBits: nat, d: Directive) returns (c: char)
    requires Reads(fmt, i, "%" + Spell(d)) && WellSpelled(d) && d.conversion == 'c'
    requires BothSupplied(d, args) && Remaining(d, args) != [] && Remaining(d, args)[0].Number?
    ensures (c as int) < 256 && Congruent(c as int, Remaining(d, args)[0].bits, 256)
    ensures Follows(fmt, i, args, longBits, d, [c], Remaining(d, args)[1..])
  {
    hide Remaining, Spell, Reads, WellSpelled, BothSupplied, Follows;
    var bits: int := Remaining(d, args)[0].bits;
    c := (bits % 256) as char;
    assert bits % 256 == bits + -(bits / 256) * 256;
    FieldFollows(fmt, i, args, longBits, d, Field([c], Remaining(d, args)[1..]));
  }

  /** `%%` is a percent sign; other conversions print nothing. Neither takes an argument, but for a `*`. */
  lemma RenderPlain(fmt: string, i: nat, args: seq<Arg>, longBits: nat, d: Directive)
    requires Reads(fmt, i, "%" + Spell(d)) && WellSpelled(d) && BothSupplied(d, args) && d.conversion !in "diuoxXsc"
    ensures Follows(fmt, i, args, longBits, d, if d.conversion == '%' then "%" else "", Remaining(d, args))
  {
    var c := d.conversion;
    assert "diuoxXsc"[0] == 'd' && "diuoxXsc"[1] == 'i' && "diuoxXsc"[2] == 'u' && "diuoxXsc"[3] == 'o';
    assert "diuoxXsc"[4] == 'x' && "diuoxXsc"[5] == 'X' && "diuoxXsc"[6] == 's' && "diuoxXsc"[7] == 'c';
    hide Remaining, Spell, Reads, WellSpelled, BothSupplied, Follows, Value;
    FieldFollows(fmt, i, args, longBits, d, Field(if c == '%' then "%" else "", Remaining(d, args)));
  }

  /** Text without a percent sign stands for itself, and nothing follows the end of the format. */
  lemma {:induction false} RenderText(fmt: string, i: nat, args: seq<Arg>, longBits: nat, text: string)
    requires Reads(fmt, i, text) && '%' !in text
    ensures i + |text| == |fmt| ==> Render(fmt, i, args, longBits) == Some(text)
    ensures Render(fmt, i, args, longBits) == Before(text, Render(fmt, i + |text|, args, longBits))
    decreases |text|
  {
    hide Reads, Render, Before;
    var more := Render(fmt, i + |text|, args, longBits);
    if text == "" {
      BeforeTwice("", "", more);
    } else {
      ReadsFirst(fmt, i, text);
      CharRender(fmt, i, args, longBits);
      RenderText(fmt, i + 1, args, longBits, text[1..]);
      BeforeTwice([text[0]], text[1..], more);
      assert text == [text[0]] + text[1..];
    }
    RenderEnd(fmt, args, longBits, text);
  }

  lemma RenderEnd(fmt: string, args: seq<Arg>, longBits: nat, text: string)
    ensures Before(text, Render(fmt, |fmt|, args, longBits)) == Some(text)
  {
    assert text + "" == text;
  }

  lemma CharRender(fmt: string, i: nat, args: seq<Arg>, longBits: nat)
    requires i < |fmt| && fmt[i] != '%'
    ensures Render(fmt, i, args, longBits) == Before([fmt[i]], Render(fmt, i + 1, args, longBits))
  {
    hide Parse, FieldOf;
  }

  lemma IntegerText(d: Directive, args: seq<Arg>, longBits: nat, field: string)
    requires (IsSigned(d.conversion) || IsUnsigned(d.conversion)) && BothSupplied(d, args)
    requires Remaining(d, args) != [] && Remaining(d, args)[0].Number?
    requires var x := Argument(d, Remaining(d, args)[0].bits, longBits);
      field == IntegerField(Asked(d, args), Magnitude(x), x < 0)
    ensures FieldOf(Asked(d, args), Remaining(d, args), longBits) == Some(Field(field, Remaining(d, args)[1..]))
  {
    hide IntegerField, SignedArg, UnsignedArg, Remaining, Value;
  }

  lemma OneField(fmt: string, i: nat, args: seq<Arg>, longBits: nat, p: Parsed, f: Field)
    requires i < |fmt| && fmt[i] == '%' && Parse(fmt, i + 1, args) == Some(p)
    requires FieldOf(p.spec, p.args, longBits) == Some(f)
    ensures Render(fmt, i, args, longBits) == Before(f.text, Render(fmt, p.next, f.args, longBits))
  {
    hide FieldOf, Parse;
  }

  lemma FieldFacts(d: Directive, args: seq<Arg>, x: int)
    requires BothSupplied(d, args)
    ensures var field := IntegerField(Asked(d, args), Magnitude(x), x < 0);
      var w, p := Value(d.width, args), Value(d.precision, Left(d.width, args));
      var sign := if x < 0 then "-" else if '+' in d.flags then "+" else if ' ' in d.flags then " " else "";
      var base := if d.conversion == 'o' then 8 else 10;
      && Laid(field, sign, Magnitude(x), base, w, p, '-' in d.flags, '0' in d.flags)
      && Shows(field, sign, Magnitude(x), base)
  {
    hide Digits, Shows, Value, IntegerField, Laid;
    FieldLaid(Asked(d, args), Magnitude(x), x < 0);
    IntegerFieldShows(Asked(d, args), Magnitude(x), x < 0);
  }

  lemma FieldLaid(spec: Spec, num: nat, negative: bool)
    ensures Laid(IntegerField(spec, num, negative), Sign(spec, negative), num, BaseOf(spec.specifier), spec.width,
                 spec.precision, spec.left, spec.zero)
  {
    hide *;
    var base, upper, sign := BaseOf(spec.specifier), spec.specifier == 'X', Sign(spec, negative);
    BaseRange(spec.specifier);
    var ds := Digits(num, base, upper);
    DigitsReadBack(num, base, upper);
    DigitsInBase(num, base, upper);
    LeadingDigit(num, base, upper);
    assert ds[0] == '0' ==> ds == "0";
    Amounts(spec.precision - |ds|);
    var p: nat := Max(spec.precision - |ds|, 0);
    Amounts(spec.width - (|sign| + p + |ds|));
    var pad: nat := Max(spec.width - (|sign| + p + |ds|), 0);
    FieldArranged(spec, num, negative, p, pad);
    LaidParts(spec.left, spec.zero, sign, ds, p, pad);
    FieldSum(spec.width, spec.precision, |sign|, |ds|, p, pad);
    var before: nat, zeros: nat, after: nat :=
      if spec.left || spec.zero then 0 else pad,
      if !spec.left && spec.zero then pad + p else p,
      if spec.left then pad else 0;
    LaidWitness(IntegerField(spec, num, negative), sign, num, base, spec, before, zeros, ds, after);
  }

  lemma Amounts(n: int)
    ensures Max(n, 0) >= 0
  {
  }

  lemma FieldSum(w: int, p: int, sign: nat, len: nat, zeros: nat, pad: nat)
    requires zeros == Max(p - len, 0) && pad == Max(w - (sign + zeros + len), 0)
    ensures pad + sign + zeros + len == Max(w, sign + Max(p, len))
  {
  }

  lemma FieldArranged(spec: Spec, num: nat, negative: bool, p: nat, pad: nat)
    requires var ds, sign := Digits(num, BaseOf(spec.specifier), spec.specifier == 'X'), Sign(spec, negative);
      p == Max(spec.precision - |ds|, 0) && pad == Max(spec.width - (|sign| + p + |ds|), 0)
    ensures var ds := Digits(num, BaseOf(spec.specifier), spec.specifier == 'X');
      IntegerField(spec, num, negative) ==
        Arrange(spec.left, spec.zero, Sign(spec, negative), Repeat('0', p) + ds, pad)
  {
    hide Digits, Sign, BaseOf;
    var ds := Digits(num, BaseOf(spec.specifier), spec.specifier == 'X');
    assert Repeat('0', spec.precision - |ds|) == Repeat('0', p);
    var n := spec.width - |Sign(spec, negative) + (Repeat('0', p) + ds)|;
    assert Repeat(' ', n) == Repeat(' ', pad) && Repeat('0', n) == Repeat('0', pad);
  }

  lemma LaidWitness(field: string, sign: string, num: nat, base: nat, spec: Spec, before: nat, zeros: nat, ds: string,
                    after: nat)
    requires field == Repeat(' ', before) + sign + Repeat('0', zeros) + ds + Repeat(' ', after)
    requires |ds| > 0 && AllDigits(ds, base) && ReadBack(ds, base) == num && (ds[0] == '0' ==> ds == "0")
    requires before + |sign| + zeros + |ds| + after == Max(spec.width, |sign| + Max(spec.precision, |ds|))
    requires (spec.left ==> before == 0) && (!spec.left ==> after == 0) && (!spec.left && spec.zero ==> before == 0)
    requires spec.left || !spec.zero ==> zeros == Max(spec.precision - |ds|, 0)
    ensures Laid(field, sign, num, base, spec.width, spec.precision, spec.left, spec.zero)
  {
    hide Repeat, AllDigits, ReadBack;
  }

  lemma LaidParts(left: bool, zero: bool, sign: string, ds: string, p: nat, pad: nat)
    ensures var before: nat, zeros: nat, after: nat :=
        if left || zero then 0 else pad, if !left && zero then pad + p else p, if left then pad else 0;
      Arrange(left, zero, sign, Repeat('0', p) + ds, pad)
      == Repeat(' ', before) + sign + Repeat('0', zeros) + ds + Repeat(' ', after)
  {
    var body := Repeat('0', p) + ds;
    assert Repeat(' ', 0) == "" && Repeat('0', pad) + Repeat('0', p) == Repeat('0', pad + p);
    if left {
      assert "" + sign + Repeat('0', p) + ds + Repeat(' ', pad) == sign + body + Repeat(' ', pad);
    } else if zero {
      assert "" + sign + Repeat('0', pad + p) + ds + "" == sign + Repeat('0', pad) + body;
    } else {
      assert Repeat(' ', pad) + sign + Repeat('0', p) + ds + "" == Repeat(' ', pad) + sign + body;
    }
  }

  lemma PercentFirst(fmt: string, i: nat, text: string)
    requires Reads(fmt, i, "%" + text)
    ensures i < |fmt| && fmt[i] == '%' && Reads(fmt, i + 1, text)
  {
    ReadsFirst(fmt, i, "%" + text);
    assert ("%" + text)[1..] == text;
  }

  /** The low `n` bits in two's complement: the one number in that range that they are congruent to. */
  lemma SignedValue(bits: DWord, n: nat, x: int)
    requires n > 0
    ensures x == SignedBits(bits, n) <==> 0 - Pow2(n - 1) as int <= x < Pow2(n - 1) && Congruent(bits, x, Pow2(n))
  {
    var m := Pow2(n);
    assert m == 2 * Pow2(n - 1);
    hide Pow2;
    DivMod(bits, m);
    var v := SignedBits(bits, n);
    var k := if bits % m >= Pow2(n - 1) then bits / m + 1 else bits / m;
    NextMultiple(bits / m, m);
    assert bits == v + k * m;
    if Congruent(bits, x, m) && 0 - Pow2(n - 1) as int <= x < Pow2(n - 1) {
      var j: int :| bits == x + j * m;
      OneMultiple(v, x, k, j, m);
    }
  }

  lemma NextMultiple(k: int, m: int)
    ensures (k + 1) * m == k * m + m
  {
  }
}
