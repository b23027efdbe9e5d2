/** `stdio.c`: the bounded formatter, character by character. */
module Stdio {
  import opened Bits
  import opened Options
  import opened Words
  import opened Printf
  import Directives

  const INT_BUF_SIZE: int := 32

  function Min(x: nat, y: nat): nat {
    if x < y then x else y
  }

  /** The three variables that the `append` functions share: where to write, how much room is left, and the count. */
  class Writer {
    const buf: array<char>
    ghost const size: nat
    ghost const before: string
    var dest: nat
    var remaining: nat
    var count: nat
    /** Everything appended so far, stored or not. */
    ghost var all: string

    ghost predicate Valid()
      reads this, buf
    {
      && size < buf.Length == |before| && dest + remaining == size
      && dest == Min(size, |all|) && count == |all|
      && buf[..dest] == all[..dest] && buf[dest..] == before[dest..]
    }

    /** The buffer has a byte for the terminator beyond the `size` bytes it is said to have. */
    constructor (buf: array<char>, size: nat)
      requires size < buf.Length
      ensures Valid() && this.buf == buf && this.size == size && all == "" && before == buf[..]
    {
      this.buf, this.size, before := buf, size, buf[..];
      dest, remaining, count, all := 0, size, 0, "";
    }

    method AppendChar(c: char)
      requires Valid()
      modifies this, buf
      ensures Valid() && all == old(all) + [c]
    {
      if remaining > 0 {
        buf[dest] := c;
        dest, remaining := dest + 1, remaining - 1;
      }
      count := count + 1;
      all := all + [c];
    }

    /** `append_str`, for a string of at least `len` characters. */
    method AppendStr(s: string, len: nat)
      requires Valid() && len <= |s|
      modifies this, buf
      ensures Valid() && all == old(all) + s[..len]
    {
      for i := 0 to len
        invariant Valid() && all == old(all) + s[..i]
      {
        AppendChar(s[i]);
        assert s[..i + 1] == s[..i] + [s[i]];
      }
    }

    method AppendPadding(pad: char, len: int)
      requires Valid()
      modifies this, buf
      ensures Valid() && all == old(all) + Repeat(pad, len)
    {
      var i := 0;
      while i < len
        invariant Valid() && 0 <= i && (if len >= 0 then i <= len else i == 0) && all == old(all) + Repeat(pad, i)
      {
        AppendChar(pad);
        assert Repeat(pad, i + 1) == Repeat(pad, i) + [pad];
        i := i + 1;
      }
      assert Repeat(pad, i) == Repeat(pad, len);
    }

    /** The digits are stored last first. */
    method AppendDigits(tmp: array<char>, len: nat, ghost ds: string)
      requires Valid() && tmp != buf && len == |ds| <= tmp.Length
      requires forall k :: 0 <= k < len ==> tmp[k] == ds[len - 1 - k]
      modifies this, buf
      ensures Valid() && all == old(all) + ds
    {
      var pos := len;
      while pos > 0
        invariant Valid() && 0 <= pos <= len && all == old(all) + ds[..len - pos]
        invariant forall k :: 0 <= k < len ==> tmp[k] == ds[len - 1 - k]
      {
        pos := pos - 1;
        AppendChar(tmp[pos]);
        assert ds[..len - pos] == ds[..len - pos - 1] + [ds[len - 1 - pos]];
      }
      assert ds[..len] == ds;
    }

    /** `format_integer`; the digit buffer never overflows. */
    method FormatInteger(spec: Spec, num: DWord, negative: bool)
      requires Valid()
      modifies this, buf
      ensures Valid() && all == old(all) + IntegerField(spec, num, negative)
    {
      var base, upper := BaseOf(spec.specifier), spec.specifier == 'X';
      ghost var ds := Digits(num, base, upper);
      var tmp, len := ConvertDigits(num, base, upper);
      var zeros := if spec.precision > len then spec.precision - len else 0;
      var sign := Sign(spec, negative);
      var total := |sign| + zeros + len;
      var padding := if spec.width > total then spec.width - total else 0;
      ghost var start := all;
      FieldPieces(spec, num, negative, zeros, padding);
      hide IntegerField, Digits, Sign, LeftPart, Repeat, Digit;
      AppendLeft(spec, sign, padding);
      AppendPadding('0', zeros);
      AppendDigits(tmp, len, ds);
      if spec.left {
        AppendPadding(' ', padding);
      }
      Regroup(start, LeftPart(spec, sign, padding), Repeat('0', zeros), ds,
        if spec.left then Repeat(' ', padding) else "");
    }

    /** What comes before the digits: blanks and sign, or sign and zeros. */
    method AppendLeft(spec: Spec, sign: string, padding: int)
      requires Valid() && |sign| <= 1
      modifies this, buf
      ensures Valid() && all == old(all) + LeftPart(spec, sign, padding)
    {
      if !spec.left && !spec.zero {
        AppendPadding(' ', padding);
      }
      if sign != "" {
        AppendChar(sign[0]);
      }
      if !spec.left && spec.zero {
        AppendPadding('0', padding);
      }
    }

    /** `handle_string` */
    method HandleString(spec: Spec, text: Option<string>)
      requires Valid()
      modifies this, buf
      ensures Valid() && all == old(all) + StringField(spec, if text.Some? then text.value else "(null)")
    {
      var s := if text.Some? then text.value else "(null)";
      var len: nat := 0;
      while (spec.precision < 0 || len < spec.precision) && len < |s|
        invariant len <= |s| && (spec.precision >= 0 ==> len <= spec.precision)
      {
        len := len + 1;
      }
      var padding := if spec.width > len then spec.width - len else 0;
      StringPieces(spec, s, len, padding);
      ghost var start := all;
      hide StringField, Repeat;
      if !spec.left {
        AppendPadding(' ', padding);
      }
      AppendStr(s, len);
      if spec.left {
        AppendPadding(' ', padding);
      }
      Regroup3(start, if spec.left then "" else Repeat(' ', padding), s[..len],
        if spec.left then Repeat(' ', padding) else "");
    }

    /** `handle_integer`, the argument already of its promoted type. */
    method HandleInteger(spec: Spec, bits: DWord, longBits: nat)
      requires Valid() && (IsSigned(spec.specifier) || IsUnsigned(spec.specifier)) && longBits <= 64
      modifies this, buf
      ensures Valid() && FieldOf(spec, [Number(bits)], longBits).Some?
      ensures all == old(all) + FieldOf(spec, [Number(bits)], longBits).value.text
    {
      if IsSigned(spec.specifier) {
        var x := SignedArg(bits, spec.length, longBits);
        SignedRange(bits, spec.length, longBits);
        FormatInteger(spec, Magnitude(x), x < 0);
      } else {
        FormatInteger(spec, UnsignedArg(bits, spec.length, longBits), false);
      }
    }

    /** The switch of `vsnprintf` on one specification. */
    method HandleField(spec: Spec, args: seq<Arg>, longBits: nat) returns (rest: seq<Arg>)
      requires Valid() && FieldOf(spec, args, longBits).Some? && longBits <= 64
      modifies this, buf
      ensures Valid() && all == old(all) + FieldOf(spec, args, longBits).value.text
      ensures rest == FieldOf(spec, args, longBits).value.args
    {
      var c := spec.specifier;
      rest := args;
      if IsSigned(c) || IsUnsigned(c) {
        HandleInteger(spec, args[0].bits, longBits);
        rest := args[1..];
      } else if c == 's' {
        HandleString(spec, args[0].text);
        rest := args[1..];
      } else if c == 'c' {
        AppendChar((args[0].bits % 256) as char);
        rest := args[1..];
      } else if c == '%' {
        AppendChar('%');
      }
    }
  }

  lemma Regroup(a: string, b: string, c: string, d: string, e: string)
    ensures a + b + c + d + e == a + (b + c + d + e)
    ensures a + b + c + d + "" == a + b + c + d
  {
  }

  function LeftPart(spec: Spec, sign: string, padding: int): string {
    if spec.left then sign else if spec.zero then sign + Repeat('0', padding) else Repeat(' ', padding) + sign
  }

  /** The conversion loop: the digits of `num`, last first, in a buffer of 32 characters. */
  method ConvertDigits(num: DWord, base: nat, upper: bool) returns (tmp: array<char>, len: nat)
    requires base == 8 || base == 10
    ensures fresh(tmp) && len == |Digits(num, base, upper)| <= tmp.Length
    ensures forall k :: 0 <= k < len ==> tmp[k] == Digits(num, base, upper)[len - 1 - k]
  {
    hide Digits, Digit;
    ghost var ds := Digits(num, base, upper);
    SixtyFourBits(num, base, upper);
    tmp := new char[INT_BUF_SIZE];
    var n: nat := num;
    len := 0;
    while true
      invariant len + |Digits(n, base, upper)| == |ds| <= 22
      invariant Digits(n, base, upper) == ds[..|ds| - len]
      invariant forall k :: 0 <= k < len ==> tmp[k] == ds[|ds| - 1 - k]
      decreases n
    {
      LastDigit(n, base, upper);
      tmp[len] := Digit(n % base, upper);
      len := len + 1;
      n := n / base;
      if n == 0 {
        break;
      }
    }
  }

  lemma LastDigit(n: nat, base: nat, upper: bool)
    requires base == 8 || base == 10
    ensures var s := Digits(n, base, upper);
      && s[|s| - 1] == Digit(n % base, upper) && (n / base == 0 ==> |s| == 1)
      && (n / base > 0 ==> n / base < n && s[..|s| - 1] == Digits(n / base, base, upper))
  {
    hide Digit;
  }

  lemma SixtyFourBits(num: DWord, base: nat, upper: bool)
    requires base == 8 || base == 10
    ensures |Digits(num, base, upper)| <= 22
  {
    WordPowers();
    assert Pow2(66) == 2 * Pow2(65) && Pow2(65) == 2 * Pow2(64);
    DigitsBound(num, base, upper, 22);
  }

  /** A field in the order in which its pieces are appended. */
  lemma FieldPieces(spec: Spec, num: nat, negative: bool, zeros: nat, padding: nat)
    requires var ds, sign := Digits(num, BaseOf(spec.specifier), spec.specifier == 'X'), Sign(spec, negative);
      && zeros == (if spec.precision > |ds| then spec.precision - |ds| else 0)
      && padding == if spec.width > |sign| + zeros + |ds| then spec.width - (|sign| + zeros + |ds|) else 0
    ensures var ds, sign := Digits(num, BaseOf(spec.specifier), spec.specifier == 'X'), Sign(spec, negative);
      |sign| <= 1 && IntegerField(spec, num, negative) ==
        LeftPart(spec, sign, padding) + Repeat('0', zeros) + ds + (if spec.left then Repeat(' ', padding) else "")
  {
    SignShort(spec, negative);
    hide Digits, Repeat, BaseOf, Sign;
    var ds, sign := Digits(num, BaseOf(spec.specifier), spec.specifier == 'X'), Sign(spec, negative);
    SameRepeat('0', spec.precision - |ds|, zeros);
    var pad := spec.width - |sign + (Repeat('0', zeros) + ds)|;
    SameRepeat(' ', pad, padding);
    SameRepeat('0', pad, padding);
    Pieces(spec.left, spec.zero, sign, Repeat('0', zeros), ds, Repeat(' ', padding), Repeat('0', padding));
  }

  lemma SignShort(spec: Spec, negative: bool)
    ensures |Sign(spec, negative)| <= 1
  {
  }

  lemma Pieces(left: bool, zero: bool, sign: string, zeros: string, ds: string, blanks: string, nulls: string)
    ensures (if left then sign else if zero then sign + nulls else blanks + sign) + zeros + ds
            + (if left then blanks else "")
         == if left then sign + (zeros + ds) + blanks
            else if zero then sign + nulls + (zeros + ds)
            else blanks + sign + (zeros + ds)
  {
    var front := if left then sign else if zero then sign + nulls else blanks + sign;
    assert front + zeros + ds == front + (zeros + ds);
    assert front + zeros + ds + "" == front + zeros + ds;
  }

  lemma SameRepeat(c: char, n: int, m: nat)
    requires m == if n > 0 then n else 0
    ensures Repeat(c, n) == Repeat(c, m)
  {
  }

  lemma Regroup3(a: string, b: string, c: string, d: string)
    ensures a + b + c + d == a + (b + c + d)
    ensures a + "" == a && a + c + "" == a + c && a + b + c + "" == a + b + c
  {
  }

  lemma StringPieces(spec: Spec, s: string, len: nat, padding: nat)
    requires len == (if 0 <= spec.precision < |s| then spec.precision else |s|)
    requires padding == if spec.width > len then spec.width - len else 0
    ensures StringField(spec, s) ==
      (if spec.left then "" else Repeat(' ', padding)) + s[..len] + (if spec.left then Repeat(' ', padding) else "")
  {
  }

  lemma SignedRange(bits: DWord, length: Length, longBits: nat)
    requires longBits <= 64
    ensures Magnitude(SignedArg(bits, length, longBits)) < WW
  {
    SignedBound(bits, 8);
    SignedBound(bits, 16);
    SignedBound(bits, 32);
    SignedBound(bits, 64);
    SignedBound(bits, longBits);
  }

  lemma SignedBound(bits: DWord, n: nat)
    requires n <= 64
    ensures Magnitude(SignedBits(bits, n)) < WW
  {
    WordPowers();
    Pow2Mono(n, 64);
    DivMod(bits, Pow2(n));
    LowBound(bits, n);
    if n > 0 {
      assert Pow2(n) == 2 * Pow2(n - 1);
    }
  }

  lemma LowBound(bits: DWord, n: nat)
    ensures 0 <= bits % Pow2(n) <= bits
  {
    DivMod(bits, Pow2(n));
    MulMono(0, bits / Pow2(n), Pow2(n));
  }

  /** The flag loop of `parse_format`. */
  method ParseFlags(fmt: string, i: nat) returns (spec: Spec, j: nat)
    ensures (spec, j) == Flags(fmt, i, BLANK)
  {
    spec, j := BLANK, i;
    while j < |fmt|
      invariant Flags(fmt, j, spec) == Flags(fmt, i, BLANK)
    {
      if fmt[j] == '-' {
        spec := spec.(left := true);
      } else if fmt[j] == '+' {
        spec := spec.(force := true);
      } else if fmt[j] == ' ' {
        spec := spec.(space := true);
      } else if fmt[j] == '#' {
        spec := spec.(alternate := true);
      } else if fmt[j] == '0' {
        spec := spec.(zero := true);
      } else {
        return;
      }
      j := j + 1;
    }
  }

  /** The digit loop for a width or a precision. */
  method ParseDecimal(fmt: string, i: nat) returns (v: nat, j: nat)
    ensures (v, j) == Decimal(fmt, i, 0)
  {
    v, j := 0, i;
    while IsDigit(At(fmt, j))
      invariant Decimal(fmt, j, v) == Decimal(fmt, i, 0)
      decreases |fmt| - j
    {
      v := v * 10 + (fmt[j] as int - '0' as int);
      j := j + 1;
    }
  }

  method ParseWidth(fmt: string, i: nat, args: seq<Arg>) returns (r: Scan)
    requires Width(fmt, i, args).Some?
    ensures r == Width(fmt, i, args).value
  {
    if At(fmt, i) == '*' {
      return Scan(IntOf(args[0].bits), i + 1, args[1..]);
    } else if IsDigit(At(fmt, i)) {
      var v, j := ParseDecimal(fmt, i);
      return Scan(v, j, args);
    }
    return Scan(-1, i, args);
  }

  method ParsePrecision(fmt: string, i: nat, args: seq<Arg>) returns (r: Scan)
    requires Precision(fmt, i, args).Some?
    ensures r == Precision(fmt, i, args).value
  {
    if At(fmt, i) != '.' {
      return Scan(-1, i, args);
    }
    if At(fmt, i + 1) == '*' {
      return Scan(IntOf(args[0].bits), i + 2, args[1..]);
    }
    var v, j := ParseDecimal(fmt, i + 1);
    return Scan(v, j, args);
  }

  /** `parse_format`, from the character after `%`: what it reads is a directive, and it returns what that asks for. */
  method ParseFormat(fmt: string, i: nat, args: seq<Arg>) returns (p: Parsed)
    requires Parse(fmt, i, args).Some?
    ensures p == Parse(fmt, i, args).value
    ensures exists d :: Directives.Means(fmt, i, args, d, p)
  {
    hide Directives.Means;
    ghost var d := Directives.ParseSpells(fmt, i, args);
    hide Flags, Width, Precision, LengthAt;
    var spec, j := ParseFlags(fmt, i);
    var width := ParseWidth(fmt, j, args);
    var precision := ParsePrecision(fmt, width.next, width.args);
    var length := LengthAt(fmt, precision.next);
    spec := spec.(width := width.value, precision := precision.value, length := length.0, specifier := fmt[length.1]);
    p := Parsed(spec, length.1 + 1, precision.args);
  }

  /** One turn of the main loop. */
  lemma RenderStep(fmt: string, i: nat, args: seq<Arg>, longBits: nat)
    requires i < |fmt| && Render(fmt, i, args, longBits).Some?
    ensures fmt[i] != '%' ==>
      && Render(fmt, i + 1, args, longBits).Some?
      && Render(fmt, i, args, longBits).value == [fmt[i]] + Render(fmt, i + 1, args, longBits).value
    ensures fmt[i] == '%' ==>
      && Parse(fmt, i + 1, args).Some?
      && var p := Parse(fmt, i + 1, args).value;
      && i < p.next <= |fmt| && FieldOf(p.spec, p.args, longBits).Some?
      && var f := FieldOf(p.spec, p.args, longBits).value;
      && Render(fmt, p.next, f.args, longBits).Some?
      && Render(fmt, i, args, longBits).value == f.text + Render(fmt, p.next, f.args, longBits).value
  {
    hide FieldOf;
  }

  /**
   * The first `size` characters of the text and then a terminator, the rest as before: inside the `size` bytes when the
   * text is shorter, and behind them otherwise.
   */
  ghost predicate Written(now: string, before: string, text: string, size: nat)
    requires |now| == |before| > size
  {
    if size == 0 then now == before
    else if |text| < size then now[..|text| + 1] == text + ['\0'] && now[|text| + 1..] == before[|text| + 1..]
    else now[..size + 1] == text[..size] + ['\0'] && now[size + 1..] == before[size + 1..]
  }

  lemma Terminated(stored: string, before: string, text: string, size: nat, end: nat)
    requires |stored| == |before| > size && end == Min(size, |text|)
    requires stored[..end] == text[..end] && stored[end..] == before[end..]
    ensures Written(if size > 0 then stored[end := '\0'] else stored, before, text, size)
  {
    var now := if size > 0 then stored[end := '\0'] else stored;
    if size == 0 {
      assert now == stored[end..] == before[end..] == before;
    } else {
      assert now[..end + 1] == stored[..end] + ['\0'] && now[end + 1..] == stored[end..][1..] == before[end + 1..];
      assert |text| < size ==> text[..end] == text;
    }
  }

  /** `vsnprintf`: the length of the whole rendering is returned, and what fits of it is written. */
  method VSNPrintf(buf: array<char>, size: nat, fmt: string, args: seq<Arg>, longBits: nat) returns (count: nat)
    requires size < buf.Length && longBits <= 64 && Render(fmt, 0, args, longBits).Some?
    modifies buf
    ensures var text := Render(fmt, 0, args, longBits).value;
      count == |text| && Written(buf[..], old(buf[..]), text, size)
  {
    hide Parse, FieldOf, Render, Written;
    var w := new Writer(buf, size);
    var i, rest := 0, args;
    RenderEnd(fmt, args, longBits);
    ghost var text := Render(fmt, 0, args, longBits).value;
    while i < |fmt|
      invariant i <= |fmt| && w.Valid() && w.buf == buf && w.size == size && fresh(w) && w.before == old(buf[..])
      invariant Render(fmt, i, rest, longBits).Some? && text == w.all + Render(fmt, i, rest, longBits).value
    {
      RenderStep(fmt, i, rest, longBits);
      if fmt[i] != '%' {
        w.AppendChar(fmt[i]);
        i := i + 1;
      } else {
        var p := ParseFormat(fmt, i + 1, rest);
        rest := w.HandleField(p.spec, p.args, longBits);
        i := p.next;
      }
    }
    RenderEnd(fmt, rest, longBits);
    ghost var stored := buf[..];
    Terminated(stored, old(buf[..]), text, size, w.dest);
    if size > 0 {
      buf[w.dest] := '\0';
      assert buf[..] == stored[w.dest := '\0'];
    }
    count := w.count;
  }

  lemma RenderEnd(fmt: string, args: seq<Arg>, longBits: nat)
    ensures Render(fmt, |fmt|, args, longBits) == Some("")
  {
  }
}
