/** What `vsnprintf` renders: format specifications, arguments, and the text of each field. */
module Printf {
  import opened Bits
  import opened Options
  import opened Words
  import opened WordTypes

  datatype Length = Plain | HH | H | L | LL | LongDouble

  datatype Spec = Spec(left: bool, force: bool, space: bool, alternate: bool, zero: bool,
                       width: int, precision: int, length: Length, specifier: char)

  /** A variadic argument: the bits of an integer, or a string pointer. */
  datatype Arg = Number(bits: DWord) | Text(text: Option<string>)

  /** A C string's character, with the terminator at its end. */
  function At(fmt: string, i: nat): char {
    if i < |fmt| then fmt[i] else '\0'
  }

  predicate IsDigit(c: char) {
    '0' <= c <= '9'
  }

  /** The flag loop of `parse_format`. */
  function Flags(fmt: string, i: nat, spec: Spec): (r: (Spec, nat))
    ensures i <= r.1
    decreases |fmt| - i
  {
    if i >= |fmt| then (spec, i)
    else if fmt[i] == '-' then Flags(fmt, i + 1, spec.(left := true))
    else if fmt[i] == '+' then Flags(fmt, i + 1, spec.(force := true))
    else if fmt[i] == ' ' then Flags(fmt, i + 1, spec.(space := true))
    else if fmt[i] == '#' then Flags(fmt, i + 1, spec.(alternate := true))
    else if fmt[i] == '0' then Flags(fmt, i + 1, spec.(zero := true))
    else (spec, i)
  }

  /** The digit loops of `parse_format`. */
  function Decimal(fmt: string, i: nat, v: nat): (r: (nat, nat))
    ensures i <= r.1
    decreases |fmt| - i
  {
    if i < |fmt| && IsDigit(fmt[i]) then Decimal(fmt, i + 1, v * 10 + (fmt[i] as int - '0' as int)) else (v, i)
  }

  /** The value of an `int` argument. */
  function IntOf(bits: DWord): (x: int)
    ensures -0x8000_0000 <= x < 0x8000_0000 && Congruent(x, bits, W)
  {
    WordPowers();
    assert bits % W == bits + -(bits / W) * W && bits % W - W == bits + (-(bits / W) - 1) * W;
    SignedBits(bits, 32)
  }

  /** The low `n` bits as a two's-complement number. */
  function SignedBits(bits: DWord, n: nat): int {
    var x := bits % Pow2(n);
    if n > 0 && x >= Pow2(n - 1) then x - Pow2(n) else x
  }

  /** A width or precision: `*` takes an argument, otherwise digits. */
  datatype Scan = Scan(value: int, next: nat, args: seq<Arg>)

  function Star(args: seq<Arg>, i: nat): Option<Scan> {
    if args == [] || !args[0].Number? then None else Some(Scan(IntOf(args[0].bits), i + 1, args[1..]))
  }

  function Width(fmt: string, i: nat, args: seq<Arg>): (r: Option<Scan>)
    ensures r.Some? ==> i <= r.value.next
  {
    if At(fmt, i) == '*' then Star(args, i)
    else if IsDigit(At(fmt, i)) then Some(Scan(Decimal(fmt, i, 0).0, Decimal(fmt, i, 0).1, args))
    else Some(Scan(-1, i, args))
  }

  function Precision(fmt: string, i: nat, args: seq<Arg>): (r: Option<Scan>)
    ensures r.Some? ==> i <= r.value.next
  {
    if At(fmt, i) != '.' then Some(Scan(-1, i, args))
    else if At(fmt, i + 1) == '*' then Star(args, i + 1)
    else Some(Scan(Decimal(fmt, i + 1, 0).0, Decimal(fmt, i + 1, 0).1, args))
  }

  function LengthAt(fmt: string, i: nat): (r: (Length, nat))
    ensures i <= r.1
  {
    if At(fmt, i) == 'h' then if At(fmt, i + 1) == 'h' then (HH, i + 2) else (H, i + 1)
    else if At(fmt, i) == 'l' then if At(fmt, i + 1) == 'l' then (LL, i + 2) else (L, i + 1)
    else if At(fmt, i) == 'L' then (LongDouble, i + 1)
    else (Plain, i)
  }

  datatype Parsed = Parsed(spec: Spec, next: nat, args: seq<Arg>)

  const BLANK := Spec(false, false, false, false, false, -1, -1, Plain, '\0')

  /** `parse_format` from the character after `%`; `None` where the format ends or an argument is missing. */
  function Parse(fmt: string, i: nat, args: seq<Arg>): (r: Option<Parsed>)
    ensures r.Some? ==> i < r.value.next <= |fmt|
  {
    var (s, j) := Flags(fmt, i, BLANK);
    var w := Width(fmt, j, args);
    if w.None? then None
    else
      var p := Precision(fmt, w.value.next, w.value.args);
      if p.None? then None
      else
        var (l, n) := LengthAt(fmt, p.value.next);
        if n >= |fmt| then None
        else Some(Parsed(s.(width := w.value.value, precision := p.value.value, length := l, specifier := fmt[n]),
                         n + 1, p.value.args))
  }

  /** `digits[d]`, in lower or upper case. */
  function Digit(d: nat, upper: bool): char
    requires d < 16
  {
    if d < 10 then '0' + d as char else if upper then 'A' + (d - 10) as char else 'a' + (d - 10) as char
  }

  /** The digits of a number, most significant first, at least one. */
  function Digits(num: nat, base: nat, upper: bool): (s: string)
    requires 2 <= base <= 16
    ensures |s| >= 1
  {
    if num < base then [Digit(num, upper)] else Digits(num / base, base, upper) + [Digit(num % base, upper)]
  }

  function DigitValue(c: char): nat {
    if IsDigit(c) then c as nat - '0' as nat
    else if 'a' <= c <= 'f' then c as nat - 'a' as nat + 10
    else if 'A' <= c <= 'F' then c as nat - 'A' as nat + 10
    else 0
  }

  /** The number a string of digits stands for. */
  function ReadBack(s: string, base: nat): nat {
    if s == [] then 0 else ReadBack(s[..|s| - 1], base) * base + DigitValue(s[|s| - 1])
  }

  lemma DigitOk(d: nat, upper: bool)
    requires d < 16
    ensures DigitValue(Digit(d, upper)) == d && (d < 10 ==> IsDigit(Digit(d, upper)))
  {
  }

  /** One more digit at the end. */
  lemma ReadBackStep(s: string, c: char, base: nat)
    ensures ReadBack(s + [c], base) == ReadBack(s, base) * base + DigitValue(c)
  {
    assert (s + [c])[..|s|] == s;
  }

  lemma {:induction false} DigitsReadBack(num: nat, base: nat, upper: bool)
    requires 2 <= base <= 16
    ensures ReadBack(Digits(num, base, upper), base) == num
  {
    hide *;
    if num < base {
      FirstDigit(num, base, upper);
    } else {
      DivMod(num, base);
      Smaller(num, base);
      DigitsReadBack(num / base, base, upper);
      NextDigit(num, base, upper, num / base, num % base);
    }
  }

  /** The digits start with a zero only for the number zero. */
  lemma {:induction false} LeadingDigit(num: nat, base: nat, upper: bool)
    requires 2 <= base <= 16
    ensures var ds := Digits(num, base, upper); if num == 0 then ds == "0" else |ds| > 0 && ds[0] != '0'
  {
    if num >= base {
      Smaller(num, base);
      DivMod(num, base);
      assert num / base > 0;
      LeadingDigit(num / base, base, upper);
    }
  }

  lemma FirstDigit(num: nat, base: nat, upper: bool)
    requires 2 <= base <= 16 && num < base
    ensures ReadBack(Digits(num, base, upper), base) == num
  {
    hide ReadBack, DigitValue, Digit;
    ReadBackStep([], Digit(num, upper), base);
    assert [] + [Digit(num, upper)] == [Digit(num, upper)];
    ReadBackEmpty(base);
    DigitOk(num, upper);
  }

  lemma Smaller(num: nat, base: nat)
    requires 2 <= base <= num
    ensures num / base < num
  {
    DivMod(num, base);
    MulMono(2, base, num / base);
  }

  lemma NextDigit(num: nat, base: nat, upper: bool, q: nat, r: nat)
    requires 2 <= base <= 16 && num >= base && q == num / base && r == num % base
    ensures ReadBack(Digits(num, base, upper), base) == ReadBack(Digits(q, base, upper), base) * base + r
  {
    hide ReadBack, DigitValue, Digit;
    ReadBackStep(Digits(q, base, upper), Digit(r, upper), base);
    DigitOk(r, upper);
  }

  lemma ReadBackEmpty(base: nat)
    ensures ReadBack([], base) * base == 0
  {
  }

  /** `n` digits are enough for every number below `8^n`. */
  lemma {:induction false} DigitsBound(num: nat, base: nat, upper: bool, n: nat)
    requires 8 <= base <= 16 && n >= 1 && num < Pow2(3 * n)
    ensures |Digits(num, base, upper)| <= n
    decreases n
  {
    Eighth(n);
    hide Pow2, Digits;
    if num >= base {
      var q := NextDigits(num, base, upper, Pow2(3 * (n - 1)));
      DigitsBound(q, base, upper, n - 1);
    } else {
      OneDigit(num, base, upper);
    }
  }

  lemma OneDigit(num: nat, base: nat, upper: bool)
    requires 2 <= base <= 16 && num < base
    ensures |Digits(num, base, upper)| == 1
  {
  }

  lemma NextDigits(num: nat, base: nat, upper: bool, p: nat) returns (q: nat)
    requires 8 <= base <= 16 && base <= num < 8 * p
    ensures q < p && |Digits(num, base, upper)| == |Digits(q, base, upper)| + 1
  {
    DivMod(num, base);
    EighthBelow(num, base, p);
    hide Digit;
    q := num / base;
  }

  lemma Eighth(n: nat)
    requires n >= 1
    ensures Pow2(3 * n) == 8 * Pow2(3 * (n - 1)) && (n == 1 ==> Pow2(3 * n) == 8)
  {
    var m := 3 * (n - 1);
    assert 3 * n == m + 3;
    assert Pow2(m + 3) == 2 * Pow2(m + 2) && Pow2(m + 2) == 2 * Pow2(m + 1) && Pow2(m + 1) == 2 * Pow2(m);
  }

  lemma EighthBelow(num: nat, base: nat, p: nat)
    requires base >= 8 && num < 8 * p
    ensures num / base < p
  {
    DivMod(num, base);
    if num / base >= p {
      MulMono(p, num / base, 8);
      MulMono(8, base, num / base);
    }
  }

  function Repeat(c: char, n: int): (s: string)
    ensures |s| == (if n > 0 then n else 0) && forall k :: 0 <= k < |s| ==> s[k] == c
  {
    if n <= 0 then [] else seq(n, _ => c)
  }

  function Max(x: int, y: int): int {
    if x > y then x else y
  }

  /** The base `format_integer` uses: only `%o` leaves 10. */
  function BaseOf(specifier: char): (b: nat)
    ensures b == 8 || b == 10
  {
    if specifier == 'o' then 8 else 10
  }

  function Sign(spec: Spec, negative: bool): string {
    if negative then "-" else if spec.force then "+" else if spec.space then " " else ""
  }

  /** The three ways to put the padding. */
  function Arrange(left: bool, zero: bool, sign: string, body: string, padding: int): string {
    if left then sign + body + Repeat(' ', padding)
    else if zero then sign + Repeat('0', padding) + body
    else Repeat(' ', padding) + sign + body
  }

  /** `format_integer` */
  function IntegerField(spec: Spec, num: nat, negative: bool): string {
    var digits := Digits(num, BaseOf(spec.specifier), spec.specifier == 'X');
    var body := Repeat('0', spec.precision - |digits|) + digits;
    var sign := Sign(spec, negative);
    Arrange(spec.left, spec.zero, sign, body, spec.width - |sign + body|)
  }

  /** The signed and the unsigned value of an argument, by length modifier; `long` has `longBits` bits. */
  function SignedArg(bits: DWord, length: Length, longBits: nat): int {
    match length
    case HH => SignedBits(bits, 8)
    case H => SignedBits(bits, 16)
    case L => SignedBits(bits, longBits)
    case LL => SignedBits(bits, 64)
    case _ => SignedBits(bits, 32)
  }

  function UnsignedArg(bits: DWord, length: Length, longBits: nat): nat {
    match length
    case HH => bits % 256
    case H => bits % 0x1_0000
    case L => LowBits(bits, longBits)
    case LL => bits
    case _ => bits % W
  }

  function LowBits(bits: DWord, n: nat): (r: nat)
    ensures r <= bits
  {
    DivMod(bits, Pow2(n));
    MulMono(0, bits / Pow2(n), Pow2(n));
    bits % Pow2(n)
  }

  /** `handle_string` */
  function StringField(spec: Spec, s: string): string {
    var shown := if 0 <= spec.precision < |s| then s[..spec.precision] else s;
    if spec.left then shown + Repeat(' ', spec.width - |shown|) else Repeat(' ', spec.width - |shown|) + shown
  }

  predicate IsSigned(c: char) {
    c == 'd' || c == 'i'
  }

  predicate IsUnsigned(c: char) {
    c == 'u' || c == 'o' || c == 'x' || c == 'X'
  }

  datatype Field = Field(text: string, args: seq<Arg>)

  /** The text of one specification, and the arguments left. */
  function FieldOf(spec: Spec, args: seq<Arg>, longBits: nat): Option<Field> {
    var c := spec.specifier;
    if IsSigned(c) || IsUnsigned(c) then
      if args == [] || !args[0].Number? then None
      else if IsSigned(c) then
        var x := SignedArg(args[0].bits, spec.length, longBits);
        Some(Field(IntegerField(spec, Magnitude(x), x < 0), args[1..]))
      else Some(Field(IntegerField(spec, UnsignedArg(args[0].bits, spec.length, longBits), false), args[1..]))
    else if c == 's' then
      if args == [] || !args[0].Text? then None
      else Some(Field(StringField(spec, if args[0].text.Some? then args[0].text.value else "(null)"), args[1..]))
    else if c == 'c' then
      if args == [] || !args[0].Number? then None else Some(Field([(args[0].bits % 256) as char], args[1..]))
    else if c == '%' then Some(Field("%", args))
    else Some(Field("", args))
  }

  /** The whole text of a complete format from position `i`, without any bound. */
  function Render(fmt: string, i: nat, args: seq<Arg>, longBits: nat): Option<string>
    decreases |fmt| - i
  {
    if i >= |fmt| then Some("")
    else if fmt[i] != '%' then
      var rest := Render(fmt, i + 1, args, longBits);
      if rest.None? then None else Some([fmt[i]] + rest.value)
    else
      var p := Parse(fmt, i + 1, args);
      if p.None? then None
      else
        var f := FieldOf(p.value.spec, p.value.args, longBits);
        if f.None? then None
        else
          var rest := Render(fmt, p.value.next, f.value.args, longBits);
          if rest.None? then None else Some(f.value.text + rest.value)
  }

  /** The length of an integer field, for every combination of flags. */
  lemma IntegerFieldLength(spec: Spec, num: nat, negative: bool)
    ensures |IntegerField(spec, num, negative)| ==
            Max(spec.width, |Sign(spec, negative)| + Max(spec.precision,
              |Digits(num, BaseOf(spec.specifier), spec.specifier == 'X')|))
  {
  }

  predicate IsDigitOf(c: char, base: nat) {
    (IsDigit(c) || 'a' <= c <= 'f' || 'A' <= c <= 'F') && DigitValue(c) < base
  }

  ghost predicate AllDigits(s: string, base: nat) {
    forall k :: 0 <= k < |s| ==> IsDigitOf(s[k], base)
  }

  ghost predicate AllBlank(s: string) {
    forall k :: 0 <= k < |s| ==> s[k] == ' '
  }

  /** The field has the sign, where there is one, and then digits that read back to the number. */
  ghost predicate Shows(field: string, sign: string, num: nat, base: nat) {
    exists before: string, digits: string, after: string ::
      && field == before + sign + digits + after
      && AllBlank(before) && AllBlank(after)
      && |digits| > 0 && AllDigits(digits, base)
      && ReadBack(digits, base) == num
  }

  lemma {:induction false} LeadingZeros(n: nat, s: string, base: nat)
    ensures ReadBack(Repeat('0', n) + s, base) == ReadBack(s, base)
    decreases n + |s|
  {
    var t := Repeat('0', n) + s;
    if s == [] {
      if n > 0 {
        assert t[..n - 1] == Repeat('0', n - 1) + [];
        LeadingZeros(n - 1, [], base);
        assert t[|t| - 1] == '0';
      } else {
        assert t == [];
      }
    } else {
      assert t[..|t| - 1] == Repeat('0', n) + s[..|s| - 1];
      LeadingZeros(n, s[..|s| - 1], base);
    }
  }

  lemma {:induction false} DigitsInBase(num: nat, base: nat, upper: bool)
    requires 2 <= base <= 16
    ensures AllDigits(Digits(num, base, upper), base)
  {
    hide Digit, IsDigitOf;
    if num < base {
      DigitInBase(num, base, upper);
    } else {
      var q, r := num / base, num % base;
      assert q < num && r < base by {
        Smaller(num, base);
        DivMod(num, base);
      }
      DigitsInBase(q, base, upper);
      DigitInBase(r, base, upper);
      OneMoreDigit(num, base, upper, q, r);
    }
  }

  lemma OneMoreDigit(num: nat, base: nat, upper: bool, q: nat, r: nat)
    requires 2 <= base <= 16 && num >= base && q == num / base && r == num % base
    requires AllDigits(Digits(q, base, upper), base) && IsDigitOf(Digit(r, upper), base)
    ensures AllDigits(Digits(num, base, upper), base)
  {
    hide Digit, IsDigitOf;
    assert Digits(num, base, upper) == Digits(q, base, upper) + [Digit(r, upper)];
  }

  lemma DigitInBase(d: nat, base: nat, upper: bool)
    requires d < base <= 16
    ensures IsDigitOf(Digit(d, upper), base)
  {
  }

  /** Every integer field is blanks, the sign, digits of the number with leading zeros, and blanks. */
  lemma IntegerFieldShows(spec: Spec, num: nat, negative: bool)
    ensures Shows(IntegerField(spec, num, negative), Sign(spec, negative), num, BaseOf(spec.specifier))
  {
    var body := FieldBody(spec, num, negative);
    hide *;
    ArrangeShows(spec.left, spec.zero, Sign(spec, negative), body, spec.width - |Sign(spec, negative) + body|, num,
      BaseOf(spec.specifier));
  }

  lemma BaseRange(c: char)
    ensures 8 <= BaseOf(c) <= 10
  {
  }

  lemma FieldBody(spec: Spec, num: nat, negative: bool) returns (body: string)
    ensures |body| > 0 && AllDigits(body, BaseOf(spec.specifier)) && ReadBack(body, BaseOf(spec.specifier)) == num
    ensures var sign := Sign(spec, negative);
      IntegerField(spec, num, negative) == Arrange(spec.left, spec.zero, sign, body, spec.width - |sign + body|)
  {
    hide Digits, ReadBack, AllDigits, Repeat, Sign, BaseOf, Arrange;
    BaseRange(spec.specifier);
    var base, upper := BaseOf(spec.specifier), spec.specifier == 'X';
    var digits := Digits(num, base, upper);
    body := Repeat('0', spec.precision - |digits|) + digits;
    DigitsReadBack(num, base, upper);
    DigitsInBase(num, base, upper);
    ZerosBefore(spec.precision - |digits|, digits, base);
  }

  lemma ArrangeShows(left: bool, zero: bool, sign: string, body: string, padding: int, num: nat, base: nat)
    requires |body| > 0 && base > 0 && AllDigits(body, base) && ReadBack(body, base) == num
    ensures Shows(Arrange(left, zero, sign, body, padding), sign, num, base)
  {
    BlankPadding(padding);
    hide ReadBack, Shows, AllDigits, AllBlank, Repeat;
    if left {
      ShowsParts([], sign, body, Repeat(' ', padding), num, base);
      assert [] + sign + body + Repeat(' ', padding) == sign + body + Repeat(' ', padding);
    } else if zero {
      ZerosBefore(padding, body, base);
      ShowsParts([], sign, Repeat('0', padding) + body, [], num, base);
      assert [] + sign + (Repeat('0', padding) + body) + [] == sign + Repeat('0', padding) + body;
    } else {
      ShowsParts(Repeat(' ', padding), sign, body, [], num, base);
      assert Repeat(' ', padding) + sign + body + [] == Repeat(' ', padding) + sign + body;
    }
  }

  lemma ZerosBefore(n: int, s: string, base: nat)
    ensures ReadBack(Repeat('0', n) + s, base) == ReadBack(s, base)
    ensures base > 0 && AllDigits(s, base) ==> AllDigits(Repeat('0', n) + s, base)
  {
    if n > 0 {
      LeadingZeros(n, s, base);
    } else {
      assert Repeat('0', n) + s == s;
    }
  }

  lemma BlankPadding(n: int)
    ensures AllBlank(Repeat(' ', n)) && AllBlank([])
  {
  }

  lemma ShowsParts(before: string, sign: string, digits: string, after: string, num: nat, base: nat)
    requires AllBlank(before) && AllBlank(after)
    requires |digits| > 0 && AllDigits(digits, base) && ReadBack(digits, base) == num
    ensures Shows(before + sign + digits + after, sign, num, base)
  {
  }

  /** The characters that are digits to some base. */
  function Kept(s: string): string {
    if s == [] then [] else Kept(s[..|s| - 1]) + (if IsDigitOf(s[|s| - 1], 16) then [s[|s| - 1]] else [])
  }

  lemma {:induction false} KeptAppend(a: string, b: string)
    ensures Kept(a + b) == Kept(a) + Kept(b)
  {
    hide IsDigitOf;
    if b == [] {
      assert a + b == a;
    } else {
      assert (a + b)[..|a + b| - 1] == a + b[..|b| - 1];
      KeptAppend(a, b[..|b| - 1]);
    }
  }

  lemma {:induction false} KeptDigits(s: string, base: nat)
    requires base <= 16 && AllDigits(s, base)
    ensures Kept(s) == s
  {
    if s != [] {
      KeptDigits(s[..|s| - 1], base);
      DigitOfMore(s[|s| - 1], base, 16);
      hide IsDigitOf;
      assert s == s[..|s| - 1] + [s[|s| - 1]];
    }
  }

  lemma DigitOfMore(c: char, base: nat, more: nat)
    requires IsDigitOf(c, base) && base <= more
    ensures IsDigitOf(c, more)
  {
  }

  lemma {:induction false} KeptBlank(s: string)
    requires AllBlank(s)
    ensures Kept(s) == []
  {
    if s != [] {
      KeptBlank(s[..|s| - 1]);
      assert !IsDigitOf(s[|s| - 1], 16);
    }
  }

  lemma KeptField(before: string, sign: string, digits: string, after: string, base: nat)
    requires AllBlank(before) && AllBlank(after) && AllDigits(digits, base) && base <= 16 && Kept(sign) == []
    ensures Kept(before + sign + digits + after) == digits
  {
    hide AllDigits, AllBlank, Kept;
    KeptAppend(before + sign + digits, after);
    KeptAppend(before + sign, digits);
    KeptAppend(before, sign);
    KeptBlank(before);
    KeptBlank(after);
    KeptDigits(digits, base);
  }

  /** The digits in a field are determined. */
  lemma ShownDigits(field: string, sign: string, num: nat, base: nat)
    returns (before: string, digits: string, after: string)
    requires Shows(field, sign, num, base) && base <= 16 && Kept(sign) == []
    ensures field == before + sign + digits + after && AllBlank(before) && AllBlank(after)
    ensures digits == Kept(field) && |digits| > 0 && AllDigits(digits, base) && ReadBack(digits, base) == num
  {
    hide AllDigits, AllBlank, Kept, ReadBack;
    before, digits, after :|
      && field == before + sign + digits + after
      && AllBlank(before) && AllBlank(after)
      && |digits| > 0 && AllDigits(digits, base)
      && ReadBack(digits, base) == num;
    KeptField(before, sign, digits, after, base);
  }

  lemma SignKept(spec: Spec, negative: bool)
    ensures Kept(Sign(spec, negative)) == []
  {
    var sign := Sign(spec, negative);
    assert sign == [] || (|sign| == 1 && sign[..0] == [] && !IsDigitOf(sign[0], 16));
  }

  /**
   * Section 7.21.6.1 of ISO C11 asks for base 16 in `%x` and `%X`. The code prints base 10, which shows the number to
   * base 16 exactly when it has one decimal digit, whatever the flags, the width and the precision.
   */
  lemma HexExactly(spec: Spec, num: nat, negative: bool)
    requires spec.specifier == 'x' || spec.specifier == 'X'
    ensures Shows(IntegerField(spec, num, negative), Sign(spec, negative), num, 16) <==> num < 10
  {
    var field, sign := IntegerField(spec, num, negative), Sign(spec, negative);
    IntegerFieldShows(spec, num, negative);
    SignKept(spec, negative);
    hide IntegerField, Sign, Shows, Kept, ReadBack, AllDigits, AllBlank;
    var before, digits, after := ShownDigits(field, sign, num, 10);
    BaseExact(digits);
    if num < 10 {
      MoreDigits(digits);
      ShowsParts(before, sign, digits, after, num, 16);
    }
    if Shows(field, sign, num, 16) {
      var _, _, _ := ShownDigits(field, sign, num, 16);
    }
  }

  /** `%x` of 10. */
  lemma HexFails()
    ensures var spec := BLANK.(specifier := 'x'); !Shows(IntegerField(spec, 10, false), Sign(spec, false), 10, 16)
  {
    HexExactly(BLANK.(specifier := 'x'), 10, false);
  }

  lemma MoreDigits(s: string)
    requires AllDigits(s, 10)
    ensures AllDigits(s, 16)
  {
  }

  /** Read to base 16, decimal digits give more than to base 10, unless they stand for one digit. */
  lemma {:induction false} BaseExact(s: string)
    requires AllDigits(s, 10)
    ensures ReadBack(s, 16) >= ReadBack(s, 10)
    ensures ReadBack(s, 16) == ReadBack(s, 10) <==> ReadBack(s, 10) < 10
  {
    if s != [] {
      assert IsDigitOf(s[|s| - 1], 10);
      BaseExact(s[..|s| - 1]);
    }
  }
}
