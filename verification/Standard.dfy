/** The integer fields that section 7.21.6.1 of ISO C11 asks for, and exactly when the formatter prints them. */
module Standard {
  import opened Printf
  import opened Words

  function StandardBase(c: char): (b: nat)
    ensures 8 <= b <= 16
  {
    if c == 'o' then 8 else if c == 'x' || c == 'X' then 16 else 10
  }

  /** Only signed conversions have a sign. */
  function StandardSign(spec: Spec, negative: bool): string {
    if IsSigned(spec.specifier) then Sign(spec, negative) else ""
  }

  /** The digits with the zeros that the precision asks for: none at all for a zero with precision zero. */
  function PreciseDigits(spec: Spec, num: nat): string {
    if num == 0 && spec.precision == 0 then ""
    else
      var digits := Digits(num, StandardBase(spec.specifier), spec.specifier == 'X');
      Repeat('0', spec.precision - |digits|) + digits
  }

  /** With `#`, an octal number starts with a zero. */
  function StandardDigits(spec: Spec, num: nat): string {
    var digits := PreciseDigits(spec, num);
    if spec.specifier == 'o' && spec.alternate && (digits == "" || digits[0] != '0') then "0" + digits else digits
  }

  function Prefix(spec: Spec, num: nat): string {
    if !spec.alternate || num == 0 then ""
    else if spec.specifier == 'x' then "0x" else if spec.specifier == 'X' then "0X" else ""
  }

  /**
   * The field, for the conversions `d`, `i`, `u`, `o`, `x` and `X`. A negative width is an argument of `*` and means to
   * justify to the left; -1 also stands for no width at all, which makes a difference for an empty field only. A
   * negative precision means none. A zero flag counts only without a precision. `#` is undefined for `d`, `i` and `u`.
   */
  function StandardField(spec: Spec, num: nat, negative: bool): string {
    var sign, digits := StandardSign(spec, negative) + Prefix(spec, num), StandardDigits(spec, num);
    Arrange(spec.left || spec.width < 0, spec.zero && spec.precision < 0, sign, digits,
      StandardWidth(spec) - |sign + digits|)
  }

  function StandardWidth(spec: Spec): int {
    if spec.width == -1 then 0 else if spec.width < 0 then -spec.width else spec.width
  }

  /** A field in a form that is unique for given parts. */
  function Shape(blanks: nat, mark: string, digits: string, after: nat): string {
    Repeat(' ', blanks) + mark + digits + Repeat(' ', after)
  }

  predicate IsMark(s: string) {
    s == "" || s == "+" || s == "-"
  }

  lemma ShapeParts(a: nat, m: string, d: string, b: nat)
    requires IsMark(m) && |d| > 0 && AllDigits(d, 16)
    ensures var s := Shape(a, m, d, b);
      && Kept(s) == d && |s| == a + |m| + |d| + b
      && (forall k :: 0 <= k < a ==> s[k] == ' ') && s[a] == (if m == "" then d[0] else m[0]) && s[a] != ' '
  {
    KeptAppend(Repeat(' ', a) + m + d, Repeat(' ', b));
    KeptAppend(Repeat(' ', a) + m, d);
    KeptAppend(Repeat(' ', a), m);
    BlankPadding(a);
    BlankPadding(b);
    KeptBlank(Repeat(' ', a));
    KeptBlank(Repeat(' ', b));
    KeptDigits(d, 16);
    NoDigitKept(m);
    hide Kept;
    assert IsDigitOf(d[0], 16);
  }

  lemma NoDigitKept(sign: string)
    requires IsMark(sign) || sign == " "
    ensures Kept(sign) == []
  {
    assert sign == "" || (|sign| == 1 && sign[..0] == [] && !IsDigitOf(sign[0], 16));
  }

  lemma ShapesEqual(a: nat, m: string, d: string, b: nat, a': nat, m': string, d': string, b': nat)
    requires IsMark(m) && |d| > 0 && AllDigits(d, 16)
    requires IsMark(m') && |d'| > 0 && AllDigits(d', 16)
    ensures Shape(a, m, d, b) == Shape(a', m', d', b') <==> a == a' && m == m' && d == d' && b == b'
  {
    ShapeParts(a, m, d, b);
    ShapeParts(a', m', d', b');
    var s, s' := Shape(a, m, d, b), Shape(a', m', d', b');
    hide Shape, Kept;
    if s == s' {
      SameStart(s, a, a');
      assert IsDigitOf(d[0], 16);
    }
  }

  /** Where the blanks in front end. */
  lemma SameStart(s: string, a: nat, b: nat)
    requires a < |s| && s[a] != ' ' && forall k :: 0 <= k < a ==> s[k] == ' '
    requires b < |s| && s[b] != ' ' && forall k :: 0 <= k < b ==> s[k] == ' '
    ensures a == b
  {
  }

  function Mark(sign: string): string {
    if sign == " " then "" else sign
  }

  function Positive(n: int): nat {
    if n > 0 then n else 0
  }

  /** Blanks in front, a blank sign among them, and zeros inside. */
  function Ahead(left: bool, zero: bool, sign: string, padding: int): nat {
    (if left || zero then 0 else Positive(padding)) + BlankSign(sign)
  }

  function BlankSign(sign: string): nat {
    if sign == " " then 1 else 0
  }

  function Inside(left: bool, zero: bool, padding: int): nat {
    if !left && zero then Positive(padding) else 0
  }

  /** What the three ways to put the padding make of it. */
  lemma ArrangeShape(left: bool, zero: bool, sign: string, body: string, padding: int)
    requires IsMark(sign) || sign == " "
    ensures Arrange(left, zero, sign, body, padding) ==
            Shape(Ahead(left, zero, sign, padding), Mark(sign), Repeat('0', Inside(left, zero, padding)) + body,
              if left then Positive(padding) else 0)
  {
    hide Shape, Repeat, Mark;
    var p := Positive(padding);
    PositiveRepeat(' ', padding);
    PositiveRepeat('0', padding);
    NothingRepeated(body);
    if left {
      LeftShape(sign, body, p);
    } else if zero {
      ZeroShape(sign, body, p);
    } else {
      RightShape(sign, body, p);
    }
  }

  lemma PositiveRepeat(c: char, n: int)
    ensures Repeat(c, n) == Repeat(c, Positive(n))
  {
  }

  lemma NothingRepeated(s: string)
    ensures Repeat('0', 0) + s == s && s + Repeat(' ', 0) == s
  {
  }

  lemma LeftShape(sign: string, body: string, p: nat)
    requires IsMark(sign) || sign == " "
    ensures sign + body + Repeat(' ', p) == Shape(BlankSign(sign), Mark(sign), body, p)
  {
    SignShape(sign);
    assert Repeat(' ', BlankSign(sign)) + Mark(sign) + body == sign + body;
  }

  lemma ZeroShape(sign: string, body: string, p: nat)
    requires IsMark(sign) || sign == " "
    ensures sign + Repeat('0', p) + body == Shape(BlankSign(sign), Mark(sign), Repeat('0', p) + body, 0)
  {
    SignShape(sign);
    hide Mark;
    var zeros := Repeat('0', p);
    assert sign + zeros + body == sign + (zeros + body);
    NothingRepeated(sign + (zeros + body));
  }

  lemma RightShape(sign: string, body: string, p: nat)
    requires IsMark(sign) || sign == " "
    ensures Repeat(' ', p) + sign + body == Shape(p + BlankSign(sign), Mark(sign), body, 0)
  {
    SignShape(sign);
    assert Repeat(' ', p + BlankSign(sign)) == Repeat(' ', p) + Repeat(' ', BlankSign(sign));
    hide Mark;
    var blanks, extra := Repeat(' ', p), Repeat(' ', BlankSign(sign));
    assert blanks + extra + Mark(sign) == blanks + (extra + Mark(sign));
    NothingRepeated(blanks + sign + body);
  }

  lemma SignShape(sign: string)
    requires IsMark(sign) || sign == " "
    ensures Repeat(' ', BlankSign(sign)) + Mark(sign) == sign
  {
  }

  /** The number of digits that the code's field has before padding. */
  function Count(spec: Spec, num: nat): nat {
    Positive(Max(spec.precision, |Digits(num, BaseOf(spec.specifier), spec.specifier == 'X')|))
  }

  predicate IsInteger(c: char) {
    IsSigned(c) || IsUnsigned(c)
  }

  /** An octal number that `#` gives one more digit. */
  predicate ExtraZero(spec: Spec, num: nat) {
    spec.specifier == 'o' && spec.alternate && num > 0 && spec.precision <= |Digits(num, 8, false)|
  }

  /**
   * When the code prints what the standard asks for. A zero must not have precision zero, unless `#` asks for its
   * digit; a hexadecimal number must have one decimal digit and no prefix; a sign must not be asked of an unsigned
   * conversion, a negative width must not matter, and a zero flag must not pad a number that has a precision. An
   * unsigned number may have the space flag where the blank falls into the padding, and an octal one may lack the zero
   * of `#` where the padding makes up for it.
   */
  predicate Conforms(spec: Spec, num: nat, negative: bool) {
    var n := Count(spec, num);
    && !(num == 0 && spec.precision == 0 && !(spec.specifier == 'o' && spec.alternate))
    && (StandardBase(spec.specifier) == 16 ==> num < 10 && (spec.alternate ==> num == 0))
    && if IsSigned(spec.specifier) then PaddingFits(spec, |Sign(spec, negative)| + n)
       else
         && !spec.force
         && if ExtraZero(spec, num) then
              spec.zero && !spec.left
              && if spec.space then spec.precision >= 0 && spec.width == n + 2
                 else if spec.precision < 0 then spec.width > n else spec.width == n + 1
            else if spec.space then
              !spec.left && spec.width > n && (spec.zero ==> spec.precision >= 0 && spec.width == n + 1)
            else PaddingFits(spec, n)
  }

  /** For a sign and digits of that length, neither a negative width nor a zero flag beside a precision matters. */
  predicate PaddingFits(spec: Spec, length: nat) {
    && (spec.width < -1 ==> -spec.width <= length)
    && (spec.zero && !spec.left && spec.precision >= 0 ==> spec.width <= length)
  }

  /** The zeros before the digits, of the precision, of `#` and of the padding. */
  function CodeZeros(spec: Spec, num: nat, negative: bool): nat {
    var len := |Digits(num, BaseOf(spec.specifier), spec.specifier == 'X')|;
    Positive(spec.precision - len) + Inside(spec.left, spec.zero, CodePadding(spec, num, negative))
  }

  function CodePadding(spec: Spec, num: nat, negative: bool): int {
    spec.width - (|Sign(spec, negative)| + Count(spec, num))
  }

  lemma CodeShape(spec: Spec, num: nat, negative: bool)
    ensures var sign, pad := Sign(spec, negative), CodePadding(spec, num, negative);
      var digits := Repeat('0', CodeZeros(spec, num, negative))
                    + Digits(num, BaseOf(spec.specifier), spec.specifier == 'X');
      && IntegerField(spec, num, negative) ==
         Shape(Ahead(spec.left, spec.zero, sign, pad), Mark(sign), digits, if spec.left then Positive(pad) else 0)
      && |digits| > 0 && AllDigits(digits, 10) && IsMark(Mark(sign))
  {
    hide *;
    var ds := Digits(num, BaseOf(spec.specifier), spec.specifier == 'X');
    var sign, pad := Sign(spec, negative), CodePadding(spec, num, negative);
    BaseRange(spec.specifier);
    SignMark(spec, negative);
    DigitsInBase(num, BaseOf(spec.specifier), spec.specifier == 'X');
    CodeArranged(spec, num, negative);
    ArrangeShape(spec.left, spec.zero, sign, Repeat('0', spec.precision - |ds|) + ds, pad);
    JoinZeros(Inside(spec.left, spec.zero, pad), spec.precision - |ds|, ds);
    CodeSum(spec, num, negative);
    ZerosDigits(CodeZeros(spec, num, negative), ds, BaseOf(spec.specifier), 10);
  }

  lemma SignMark(spec: Spec, negative: bool)
    ensures IsMark(Sign(spec, negative)) || Sign(spec, negative) == " "
    ensures IsMark(Mark(Sign(spec, negative)))
  {
  }

  lemma CodeArranged(spec: Spec, num: nat, negative: bool)
    ensures var ds := Digits(num, BaseOf(spec.specifier), spec.specifier == 'X');
      IntegerField(spec, num, negative) ==
        Arrange(spec.left, spec.zero, Sign(spec, negative), Repeat('0', spec.precision - |ds|) + ds,
          CodePadding(spec, num, negative))
  {
    hide Digits, Arrange, Sign;
  }

  lemma CodeSum(spec: Spec, num: nat, negative: bool)
    ensures CodeZeros(spec, num, negative) ==
            Inside(spec.left, spec.zero, CodePadding(spec, num, negative))
            + Positive(spec.precision - |Digits(num, BaseOf(spec.specifier), spec.specifier == 'X')|)
  {
    hide Inside, Positive, CodePadding, Digits, BaseOf;
  }

  lemma JoinZeros(a: nat, b: int, s: string)
    ensures Repeat('0', a) + (Repeat('0', b) + s) == Repeat('0', a + Positive(b)) + s
  {
    assert Repeat('0', a) + Repeat('0', b) == Repeat('0', a + Positive(b));
    assert Repeat('0', a) + (Repeat('0', b) + s) == Repeat('0', a) + Repeat('0', b) + s;
  }

  lemma ZerosDigits(n: nat, s: string, base: nat, more: nat)
    requires AllDigits(s, base) && 0 < base <= more
    ensures AllDigits(Repeat('0', n) + s, more)
  {
    forall k | 0 <= k < |s|
      ensures IsDigitOf(s[k], more)
    {
      DigitOfMore(s[k], base, more);
    }
  }

  /** The same for the standard's field. */
  function StandardZeros(spec: Spec, num: nat, negative: bool): nat {
    var len := |Digits(num, StandardBase(spec.specifier), spec.specifier == 'X')|;
    Leading(spec, num, len)
    + Inside(spec.left || spec.width < 0, spec.zero && spec.precision < 0, StandardPadding(spec, num, negative))
  }

  /** The zeros that the precision and `#` ask for. */
  function Leading(spec: Spec, num: nat, len: nat): nat {
    Positive(spec.precision - len) + (if ExtraZero(spec, num) then 1 else 0)
  }

  function StandardPadding(spec: Spec, num: nat, negative: bool): int {
    StandardWidth(spec) - (|StandardSign(spec, negative)| + |StandardDigits(spec, num)|)
  }

  lemma StandardShape(spec: Spec, num: nat, negative: bool)
    requires Prefix(spec, num) == "" && StandardDigits(spec, num) != ""
    ensures var sign, pad := StandardSign(spec, negative), StandardPadding(spec, num, negative);
      var left, zero := spec.left || spec.width < 0, spec.zero && spec.precision < 0;
      var digits := Repeat('0', StandardZeros(spec, num, negative))
                    + Digits(num, StandardBase(spec.specifier), spec.specifier == 'X');
      && StandardField(spec, num, negative) ==
         Shape(Ahead(left, zero, sign, pad), Mark(sign), digits, if left then Positive(pad) else 0)
      && |digits| > 0 && AllDigits(digits, 16) && IsMark(Mark(sign))
  {
    hide *;
    var ds := Digits(num, StandardBase(spec.specifier), spec.specifier == 'X');
    var sign, pad := StandardSign(spec, negative), StandardPadding(spec, num, negative);
    var left, zero := spec.left || spec.width < 0, spec.zero && spec.precision < 0;
    StandardMark(spec, negative);
    DigitsInBase(num, StandardBase(spec.specifier), spec.specifier == 'X');
    PreciseZeros(spec, num);
    StandardArranged(spec, num, negative);
    ArrangeShape(left, zero, sign, StandardDigits(spec, num), pad);
    JoinZeros(Inside(left, zero, pad), Leading(spec, num, |ds|), ds);
    StandardSum(spec, num, negative);
    ZerosDigits(StandardZeros(spec, num, negative), ds, StandardBase(spec.specifier), 16);
  }

  lemma StandardMark(spec: Spec, negative: bool)
    ensures IsMark(StandardSign(spec, negative)) || StandardSign(spec, negative) == " "
    ensures IsMark(Mark(StandardSign(spec, negative)))
  {
    SignMark(spec, negative);
  }

  lemma StandardArranged(spec: Spec, num: nat, negative: bool)
    requires Prefix(spec, num) == ""
    ensures StandardField(spec, num, negative) ==
      Arrange(spec.left || spec.width < 0, spec.zero && spec.precision < 0, StandardSign(spec, negative),
        StandardDigits(spec, num), StandardPadding(spec, num, negative))
  {
    assert StandardSign(spec, negative) + "" == StandardSign(spec, negative);
    hide StandardSign, StandardDigits, Arrange, StandardWidth;
  }

  lemma StandardSum(spec: Spec, num: nat, negative: bool)
    ensures var len := |Digits(num, StandardBase(spec.specifier), spec.specifier == 'X')|;
      StandardZeros(spec, num, negative) ==
        Inside(spec.left || spec.width < 0, spec.zero && spec.precision < 0, StandardPadding(spec, num, negative))
        + Positive(Leading(spec, num, len))
  {
    hide Inside, StandardPadding, Digits, StandardBase, ExtraZero;
  }

  /** The standard's digits are zeros and the digits of the number. */
  lemma PreciseZeros(spec: Spec, num: nat)
    requires StandardDigits(spec, num) != ""
    ensures var ds := Digits(num, StandardBase(spec.specifier), spec.specifier == 'X');
      StandardDigits(spec, num) == Repeat('0', Leading(spec, num, |ds|)) + ds
  {
    var base, upper := StandardBase(spec.specifier), spec.specifier == 'X';
    var ds := Digits(num, base, upper);
    var n := Positive(spec.precision - |ds|);
    PositiveRepeat('0', spec.precision - |ds|);
    LeadingDigit(num, base, upper);
    ZeroFirst(n, ds);
    hide Digits, Repeat;
  }

  lemma ZeroFirst(n: nat, s: string)
    ensures Repeat('0', n + 1) + s == "0" + (Repeat('0', n) + s)
    ensures n > 0 ==> (Repeat('0', n) + s)[0] == '0'
    ensures n == 0 ==> Repeat('0', n) + s == s
  {
  }

  lemma ArrangeHas(left: bool, zero: bool, sign: string, body: string, padding: int, c: char)
    requires c in sign
    ensures c in Arrange(left, zero, sign, body, padding)
  {
    var k :| 0 <= k < |sign| && sign[k] == c;
    var front := if left || zero then 0 else |Repeat(' ', padding)|;
    assert Arrange(left, zero, sign, body, padding)[front + k] == c;
  }

  lemma ShapeHas(a: nat, m: string, d: string, b: nat, c: char)
    ensures c in Shape(a, m, d, b) ==> c == ' ' || c in m || c in d
  {
  }

  /** A prefix has a letter that the code never prints. */
  lemma PrefixDiffers(spec: Spec, num: nat, negative: bool)
    requires Prefix(spec, num) != ""
    ensures IntegerField(spec, num, negative) != StandardField(spec, num, negative)
  {
    var c := spec.specifier;
    assert c in Prefix(spec, num) by {
      assert Prefix(spec, num)[1] == c;
    }
    hide *;
    CodeShape(spec, num, negative);
    var sign, pad := Sign(spec, negative), CodePadding(spec, num, negative);
    var digits := Repeat('0', CodeZeros(spec, num, negative))
                  + Digits(num, BaseOf(spec.specifier), spec.specifier == 'X');
    NoLetter(spec, num, Mark(sign), digits);
    ShapeHas(Ahead(spec.left, spec.zero, sign, pad), Mark(sign), digits, if spec.left then Positive(pad) else 0, c);
    StandardHas(spec, num, negative, c);
  }

  lemma NoLetter(spec: Spec, num: nat, m: string, d: string)
    requires Prefix(spec, num) != "" && IsMark(m) && AllDigits(d, 10)
    ensures spec.specifier != ' ' && spec.specifier !in m && spec.specifier !in d
  {
    forall k | 0 <= k < |d|
      ensures d[k] != spec.specifier
    {
      assert IsDigitOf(d[k], 10);
    }
  }

  lemma StandardHas(spec: Spec, num: nat, negative: bool, c: char)
    requires c in Prefix(spec, num)
    ensures c in StandardField(spec, num, negative)
  {
    hide Arrange, Prefix, StandardSign, StandardDigits, StandardWidth;
    var sign, digits := StandardSign(spec, negative) + Prefix(spec, num), StandardDigits(spec, num);
    ArrangeHas(spec.left || spec.width < 0, spec.zero && spec.precision < 0, sign, digits,
      StandardWidth(spec) - |sign + digits|, c);
  }

  /** The code always prints a digit. */
  lemma EmptyDiffers(spec: Spec, num: nat, negative: bool)
    requires StandardDigits(spec, num) == "" && Prefix(spec, num) == ""
    ensures IntegerField(spec, num, negative) != StandardField(spec, num, negative)
  {
    EmptyKept(spec, num, negative);
    hide *;
    CodeShape(spec, num, negative);
    var sign, pad := Sign(spec, negative), CodePadding(spec, num, negative);
    var digits := Repeat('0', CodeZeros(spec, num, negative))
                  + Digits(num, BaseOf(spec.specifier), spec.specifier == 'X');
    MoreDigits(digits);
    ShapeParts(Ahead(spec.left, spec.zero, sign, pad), Mark(sign), digits, if spec.left then Positive(pad) else 0);
  }

  lemma EmptyKept(spec: Spec, num: nat, negative: bool)
    requires StandardDigits(spec, num) == "" && Prefix(spec, num) == ""
    ensures Kept(StandardField(spec, num, negative)) == []
  {
    assert spec.precision == 0 by {
      hide Digits;
    }
    var sign, blanks := StandardSign(spec, negative), Repeat(' ', StandardPadding(spec, num, negative));
    StandardArranged(spec, num, negative);
    StandardMark(spec, negative);
    assert sign + "" == sign && blanks + sign + "" == blanks + sign;
    hide Repeat, StandardField, StandardDigits, StandardSign, StandardPadding, Prefix, Digits, Kept;
    BlankPadding(StandardPadding(spec, num, negative));
    KeptBlank(blanks);
    KeptAppend(sign, blanks);
    KeptAppend(blanks, sign);
    NoDigitKept(sign);
  }

  /** Both fields in their unique form. */
  lemma Compared(spec: Spec, num: nat, negative: bool)
    requires Prefix(spec, num) == "" && StandardDigits(spec, num) != ""
    ensures var sign, pad := Sign(spec, negative), CodePadding(spec, num, negative);
      var sign', pad' := StandardSign(spec, negative), StandardPadding(spec, num, negative);
      var left, zero := spec.left || spec.width < 0, spec.zero && spec.precision < 0;
      IntegerField(spec, num, negative) == StandardField(spec, num, negative) <==>
        && Ahead(spec.left, spec.zero, sign, pad) == Ahead(left, zero, sign', pad')
        && Mark(sign) == Mark(sign')
        && Repeat('0', CodeZeros(spec, num, negative)) + Digits(num, BaseOf(spec.specifier), spec.specifier == 'X')
           == Repeat('0', StandardZeros(spec, num, negative))
              + Digits(num, StandardBase(spec.specifier), spec.specifier == 'X')
        && (if spec.left then Positive(pad) else 0) == (if left then Positive(pad') else 0)
  {
    hide *;
    CodeShape(spec, num, negative);
    StandardShape(spec, num, negative);
    var sign, pad := Sign(spec, negative), CodePadding(spec, num, negative);
    var sign', pad' := StandardSign(spec, negative), StandardPadding(spec, num, negative);
    var left, zero := spec.left || spec.width < 0, spec.zero && spec.precision < 0;
    var d := Repeat('0', CodeZeros(spec, num, negative)) + Digits(num, BaseOf(spec.specifier), spec.specifier == 'X');
    var d' := Repeat('0', StandardZeros(spec, num, negative))
              + Digits(num, StandardBase(spec.specifier), spec.specifier == 'X');
    MoreDigits(d);
    ShapesEqual(Ahead(spec.left, spec.zero, sign, pad), Mark(sign), d, if spec.left then Positive(pad) else 0,
      Ahead(left, zero, sign', pad'), Mark(sign'), d', if left then Positive(pad') else 0);
  }

  /** Zeros and decimal digits of a number above nine are not zeros and its hexadecimal digits. */
  lemma HexDiffers(num: nat, upper: bool, a: nat, b: nat)
    requires num >= 10
    ensures Repeat('0', a) + Digits(num, 10, upper) != Repeat('0', b) + Digits(num, 16, upper)
  {
    hide *;
    var d := Repeat('0', a) + Digits(num, 10, upper);
    DigitsReadBack(num, 10, upper);
    DigitsReadBack(num, 16, upper);
    DigitsInBase(num, 10, upper);
    ZerosBefore(a, Digits(num, 10, upper), 10);
    ZerosBefore(b, Digits(num, 16, upper), 16);
    BaseExact(d);
  }

  /** The same digits, with more or fewer zeros. */
  lemma SameDigits(a: nat, b: nat, ds: string)
    ensures Repeat('0', a) + ds == Repeat('0', b) + ds <==> a == b
  {
    assert |Repeat('0', a) + ds| == a + |ds| && |Repeat('0', b) + ds| == b + |ds|;
  }

  lemma SmallHex(num: nat, upper: bool)
    requires num < 10
    ensures Digits(num, 16, upper) == Digits(num, 10, upper)
  {
  }

  /**
   * The field that the code prints is the one the standard asks for if and only if the specification and the number
   * conform.
   */
  lemma StandardExactly(spec: Spec, num: nat, negative: bool)
    requires IsInteger(spec.specifier) && (negative ==> IsSigned(spec.specifier))
    ensures IntegerField(spec, num, negative) == StandardField(spec, num, negative) <==> Conforms(spec, num, negative)
  {
    hide IntegerField, StandardField, Digits, Repeat, Ahead, Mark, CodeZeros, StandardZeros, CodePadding,
      StandardPadding, Sign, StandardSign, Count, ExtraZero, PaddingFits;
    var upper := spec.specifier == 'X';
    if Prefix(spec, num) != "" {
      PrefixDiffers(spec, num, negative);
    } else if StandardDigits(spec, num) == "" {
      EmptyDiffers(spec, num, negative);
      NoDigits(spec, num);
    } else {
      Compared(spec, num, negative);
      SomeDigits(spec, num);
      if StandardBase(spec.specifier) == 16 && num >= 10 {
        HexDiffers(num, upper, CodeZeros(spec, num, negative), StandardZeros(spec, num, negative));
      } else {
        if StandardBase(spec.specifier) == 16 {
          SmallHex(num, upper);
        }
        SameDigits(CodeZeros(spec, num, negative), StandardZeros(spec, num, negative),
          Digits(num, BaseOf(spec.specifier), upper));
        NumbersAgree(spec, num, negative);
      }
    }
  }

  lemma NoDigits(spec: Spec, num: nat)
    requires StandardDigits(spec, num) == ""
    ensures num == 0 && spec.precision == 0 && !(spec.specifier == 'o' && spec.alternate)
  {
    hide Digits;
  }

  lemma SomeDigits(spec: Spec, num: nat)
    requires StandardDigits(spec, num) != ""
    ensures !(num == 0 && spec.precision == 0 && !(spec.specifier == 'o' && spec.alternate))
  {
  }

  /** The blanks, signs and zeros of both fields are the same. */
  predicate SameNumbers(spec: Spec, num: nat, negative: bool) {
    var sign, pad := Sign(spec, negative), CodePadding(spec, num, negative);
    var sign', pad' := StandardSign(spec, negative), StandardPadding(spec, num, negative);
    var left, zero := spec.left || spec.width < 0, spec.zero && spec.precision < 0;
    && Ahead(spec.left, spec.zero, sign, pad) == Ahead(left, zero, sign', pad')
    && Mark(sign) == Mark(sign')
    && CodeZeros(spec, num, negative) == StandardZeros(spec, num, negative)
    && (if spec.left then Positive(pad) else 0) == (if left then Positive(pad') else 0)
  }

  /** A number that both can print with the same digits. */
  predicate Printable(spec: Spec, num: nat, negative: bool) {
    && IsInteger(spec.specifier) && (negative ==> IsSigned(spec.specifier))
    && Prefix(spec, num) == "" && StandardDigits(spec, num) != ""
    && (StandardBase(spec.specifier) == 16 ==> num < 10)
    && Digits(num, StandardBase(spec.specifier), spec.specifier == 'X')
       == Digits(num, BaseOf(spec.specifier), spec.specifier == 'X')
  }

  /** What is left is a comparison of numbers. */
  lemma NumbersAgree(spec: Spec, num: nat, negative: bool)
    requires Printable(spec, num, negative)
    ensures Conforms(spec, num, negative) <==> SameNumbers(spec, num, negative)
  {
    hide Digits, StandardDigits, SameNumbers, Repeat, Conforms;
    if IsSigned(spec.specifier) {
      SignedAgree(spec, num, negative);
    } else if ExtraZero(spec, num) {
      ExtraAgree(spec, num);
    } else {
      UnsignedAgree(spec, num);
    }
  }

  lemma SignedAgree(spec: Spec, num: nat, negative: bool)
    requires Printable(spec, num, negative) && IsSigned(spec.specifier)
    ensures Conforms(spec, num, negative) <==> SameNumbers(spec, num, negative)
  {
    PreciseZeros(spec, num);
    SomeDigits(spec, num);
    hide Digits, StandardDigits, Repeat;
  }

  lemma ExtraAgree(spec: Spec, num: nat)
    requires Printable(spec, num, false) && !IsSigned(spec.specifier) && ExtraZero(spec, num)
    ensures Conforms(spec, num, false) <==> SameNumbers(spec, num, false)
  {
    PreciseZeros(spec, num);
    SomeDigits(spec, num);
    hide Digits, StandardDigits, Repeat;
  }

  lemma UnsignedAgree(spec: Spec, num: nat)
    requires Printable(spec, num, false) && !IsSigned(spec.specifier) && !ExtraZero(spec, num)
    ensures Conforms(spec, num, false) <==> SameNumbers(spec, num, false)
  {
    PreciseZeros(spec, num);
    SomeDigits(spec, num);
    hide Digits, StandardDigits, Repeat;
  }

  /** Decimal conversions without `#`, a zero flag, a precision or an argument for the width always conform. */
  lemma PlainConforms(spec: Spec, num: nat, negative: bool)
    requires IsSigned(spec.specifier) || (spec.specifier == 'u' && !spec.force && !spec.space)
    requires !(spec.zero && spec.precision >= 0) && spec.precision != 0 && spec.width >= -1
    ensures Conforms(spec, num, negative)
  {
    hide Digits;
  }

  /** `%.0d` of 0, `%05.3d` of 7, `%+u` of 7, a width of -3 for 7, `%x` of 10, and `%#o` of 8. */
  lemma Departures()
    ensures forall k :: 0 <= k < |FAILING| ==>
      IntegerField(FAILING[k].0, FAILING[k].1, false) != StandardField(FAILING[k].0, FAILING[k].1, false)
  {
    forall k | 0 <= k < |FAILING|
      ensures IntegerField(FAILING[k].0, FAILING[k].1, false) != StandardField(FAILING[k].0, FAILING[k].1, false)
    {
      StandardExactly(FAILING[k].0, FAILING[k].1, false);
      hide IntegerField, StandardField;
      OneDigit(7, 10, false);
      assert Digits(8, 8, false) == Digits(1, 8, false) + Digits(0, 8, false);
    }
  }

  const FAILING: seq<(Spec, nat)> := [
    (BLANK.(precision := 0, specifier := 'd'), 0),
    (BLANK.(zero := true, width := 5, precision := 3, specifier := 'd'), 7),
    (BLANK.(force := true, specifier := 'u'), 7),
    (BLANK.(width := -3, specifier := 'd'), 7),
    (BLANK.(specifier := 'x'), 10),
    (BLANK.(alternate := true, specifier := 'o'), 8)]
}
