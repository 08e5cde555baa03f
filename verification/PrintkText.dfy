/** What formats print: each conversion in terms of its argument, and formats put together. */
module PrintkText {
  import opened Wrappers
  import opened Bytes
  import opened Arith
  import opened Printk

  // ---- numerals ----

  /** A digit of a base of up to 16, letters in the case asked for. */
  predicate IsDigit(c: char, base: nat, upper: bool) {
    && ('0' <= c <= '9' || (if upper then 'A' <= c <= 'F' else 'a' <= c <= 'f'))
    && DigitValue(c) < base
  }

  predicate AllDigits(s: string, base: nat, upper: bool) {
    forall k :: 0 <= k < |s| ==> IsDigit(s[k], base, upper)
  }

  /** The shortest numeral for v: digits without leading zeros, after a minus sign if v is negative. */
  predicate IsNumeral(s: string, v: int, base: nat, upper: bool) {
    && SignedValue(s, base) == v
    && var digits := if v < 0 && s != "" then s[1..] else s;
       && (v < 0 ==> s != "" && s[0] == '-')
       && digits != "" && AllDigits(digits, base, upper) && (digits[0] == '0' ==> digits == "0")
  }

  /** The letters stand for ten to fifteen, in either case. */
  lemma DigitsInOrder(d: nat)
    requires d < 16
    ensures DigitValue("0123456789abcdef"[d]) == d == DigitValue("0123456789ABCDEF"[d])
  {
  }

  lemma DigitIs(d: nat, base: nat, upper: bool)
    requires d < base <= 16
    ensures IsDigit(Digit(d, upper), base, upper) && (Digit(d, upper) == '0' <==> d == 0)
  {
    DigitReads(d, upper);
  }

  lemma ZeroDigit(upper: bool)
    ensures [Digit(0, upper)] == "0"
  {
  }

  lemma {:induction false} DigitsAreDigits(u: nat, base: nat, upper: bool)
    requires 2 <= base <= 16
    ensures var s := Digits(u, base, upper);
            AllDigits(s, base, upper) && (s[0] == '0' <==> u == 0) && (u == 0 ==> s == "0")
  {
    hide IsDigit, Digit;
    if u < base {
      DigitIs(u, base, upper);
      if u == 0 {
        ZeroDigit(upper);
      }
    } else {
      Smaller(u, base);
      DigitsAreDigits(u / base, base, upper);
      DigitIs(u % base, base, upper);
    }
  }

  lemma NumberIsNumeral(v: int, base: nat, upper: bool)
    requires 2 <= base <= 16
    ensures IsNumeral(Number(v, base, upper), v, base, upper)
  {
    hide IsDigit, AllDigits, Digits;
    NumberReadsBack(v, base, upper);
    DigitsAreDigits(if v < 0 then -v else v, base, upper);
    assert v < 0 ==> Number(v, base, upper)[1..] == Digits(-v, base, upper);
  }

  function Power(base: nat, k: nat): nat {
    if k == 0 then 1 else base * Power(base, k - 1)
  }

  lemma BelowAfterDivision(u: nat, base: nat, n: nat)
    requires base > 0 && u < base * n
    ensures u / base < n
  {
    Joined(u, base);
    assert n * base == base * n;
    if u / base >= n {
      MulLe(n, u / base, base);
      assert false;
    }
  }

  lemma {:induction false} DigitsShort(u: nat, base: nat, upper: bool, k: nat)
    requires 2 <= base <= 16 && k > 0 && u < Power(base, k)
    ensures |Digits(u, base, upper)| <= k
    decreases k
  {
    hide Digit;
    assert k == 1 ==> Power(base, k - 1) == 1;
    if u >= base {
      BelowAfterDivision(u, base, Power(base, k - 1));
      Smaller(u, base);
      DigitsShort(u / base, base, upper, k - 1);
    }
  }

  lemma SixteenHexDigits()
    ensures Power(16, 16) == WORD64
  {
    assert Power(16, 4) == 0x10000 by {
      assert Power(16, 2) == 256;
    }
    assert Power(16, 8) == 0x1_0000_0000 by {
      assert Power(16, 6) == 0x1000000;
    }
    assert Power(16, 12) == 0x1_0000_0000_0000 by {
      assert Power(16, 10) == 0x100_0000_0000;
    }
    assert Power(16, 14) == 0x100_0000_0000_0000;
  }

  // ---- fill ----

  predicate AllAre(s: string, c: char) {
    forall k :: 0 <= k < |s| ==> s[k] == c
  }

  lemma {:induction false} RepeatIs(c: char, n: int)
    ensures |Repeat(c, n)| == (if n < 0 then 0 else n) && AllAre(Repeat(c, n), c)
    decreases n
  {
    if n > 0 {
      RepeatIs(c, n - 1);
    }
  }

  lemma {:induction false} ZerosAreZero(fill: string, base: nat)
    requires AllAre(fill, '0')
    ensures Value(fill, base) == 0
  {
    if fill != "" {
      ZerosAreZero(fill[..|fill| - 1], base);
      assert fill[|fill| - 1] == '0';
    }
  }

  /** Leading zeros do not change what digits stand for. */
  lemma {:induction false} ZerosInFront(fill: string, s: string, base: nat)
    requires AllAre(fill, '0')
    ensures Value(fill + s, base) == Value(s, base)
  {
    if s == "" {
      assert fill + s == fill;
      ZerosAreZero(fill, base);
    } else {
      var n := |s| - 1;
      assert (fill + s)[..|fill + s| - 1] == fill + s[..n];
      ZerosInFront(fill, s[..n], base);
    }
  }

  // ---- reading a conversion ----

  predicate AllDecimal(s: string) {
    forall k :: 0 <= k < |s| ==> '0' <= s[k] <= '9'
  }

  predicate NotDecimalFirst(s: string) {
    s == "" || !('0' <= s[0] <= '9')
  }

  lemma AppendThree(a: string, b: string, c: string)
    ensures a + (b + c) == a + b + c
  {
  }

  lemma WidthStep(c: char, rest: string, w: nat)
    requires '0' <= c <= '9'
    ensures var r := Width(rest, w * 10 + DigitValue(c)); Width([c] + rest, w) == (r.0, r.1 + 1)
  {
    assert ([c] + rest)[1..] == rest;
  }

  lemma WidthEnds(rest: string, w: nat)
    requires NotDecimalFirst(rest)
    ensures Width(rest, w) == (w, 0)
  {
  }

  /** The digits of the width, read on from those before. */
  lemma {:induction false} WidthReads(before: string, digits: string, rest: string)
    requires AllDecimal(digits) && NotDecimalFirst(rest)
    ensures Width(digits + rest, Value(before, 10)) == (Value(before + digits, 10), |digits|)
    decreases |digits|
  {
    hide Width, Value, DigitValue, NotDecimalFirst;
    if digits == "" {
      WidthEnds(rest, Value(before, 10));
      assert digits + rest == rest && before + digits == before;
    } else {
      var c, more := digits[0], digits[1..];
      assert digits == [c] + more;
      AppendThree(before, [c], more);
      AppendThree([c], more, rest);
      ValueOfOneMore(before, c, 10);
      WidthReads(before + [c], more, rest);
      WidthStep(c, more + rest, Value(before, 10));
    }
  }

  lemma {:induction false} ZerosRead(zeros: string, rest: string)
    requires AllAre(zeros, '0') && (rest == "" || rest[0] != '0')
    ensures LeadingZeros(zeros + rest) == |zeros|
    decreases |zeros|
  {
    if zeros == "" {
      assert zeros + rest == rest;
    } else {
      assert (zeros + rest)[1..] == zeros[1..] + rest;
      ZerosRead(zeros[1..], rest);
    }
  }

  /** A length modifier before a conversion character that is not part of one. */
  predicate IsModifier(mod: string, c: char) {
    && (mod == "" || mod == "l" || mod == "ll" || mod == "z")
    && (mod == "" ==> c != 'l' && c != 'z') && (mod == "l" ==> c != 'l')
  }

  /** The parts of a conversion: zero flags, a width that starts with no zero, a length modifier, a character. */
  predicate IsConversion(zeros: string, width: string, mod: string, c: char) {
    && AllAre(zeros, '0') && AllDecimal(width) && (width != "" ==> width[0] != '0')
    && IsModifier(mod, c) && !('0' <= c <= '9')
  }

  lemma ModifierReads(mod: string, c: char, rest: string)
    requires IsModifier(mod, c)
    ensures Modifier(mod + [c] + rest) == |mod| && (mod + [c] + rest)[|mod|] == c
  {
  }

  lemma RestReads(s: string, zeroPad: bool, width: nat, f: nat, m: nat)
    requires f + m < |s| && Modifier(s[f..]) == m
    ensures ParseRest(s, zeroPad, width, f) == Some((Spec(zeroPad, width, m > 0, s[f + m]), f + m + 1))
  {
    hide Modifier;
  }

  lemma ParseSteps(s: string, z: nat, width: nat, k: nat, m: nat)
    requires z == LeadingZeros(s) && Width(s[z..], 0) == (width, k)
    requires z + k + m < |s| && Modifier(s[z + k..]) == m
    ensures Parse(s) == Some((Spec(z > 0, width, m > 0, s[z + k + m]), z + k + m + 1))
  {
    hide LeadingZeros, Width, Modifier, ParseRest;
    RestReads(s, z > 0, width, z + k, m);
  }

  lemma TailFirst(mod: string, c: char, rest: string)
    requires IsModifier(mod, c) && !('0' <= c <= '9')
    ensures NotDecimalFirst(mod + [c] + rest) && mod + [c] + rest != "" && (mod + [c] + rest)[0] != '0'
  {
  }

  lemma PartsOf(zeros: string, width: string, mod: string, c: char, rest: string)
    ensures var whole, tail := zeros + width + mod + [c] + rest, mod + [c] + rest;
            && whole == zeros + (width + tail) && whole[|zeros|..] == width + tail
            && whole[|zeros| + |width|..] == tail && whole[|zeros| + |width| + |mod|] == tail[|mod|]
            && "" + width == width
  {
  }

  lemma NothingReadsZero()
    ensures Value("", 10) == 0
  {
  }

  /** A conversion is read as its parts say, whatever follows. */
  lemma ParseReads(zeros: string, width: string, mod: string, c: char, rest: string)
    requires IsConversion(zeros, width, mod, c)
    ensures var s := zeros + width + mod + [c];
            Parse(s + rest) == Some((Spec(zeros != "", Value(width, 10), mod != "", c), |s|))
  {
    hide LeadingZeros, Width, Modifier, Value, Parse, IsModifier, AllAre, AllDecimal, NotDecimalFirst;
    var tail := mod + [c] + rest;
    var whole := zeros + width + mod + [c] + rest;
    PartsOf(zeros, width, mod, c, rest);
    TailFirst(mod, c, rest);
    ZerosRead(zeros, width + tail);
    WidthReads("", width, tail);
    NothingReadsZero();
    ModifierReads(mod, c, rest);
    ParseSteps(whole, |zeros|, Value(width, 10), |width|, |mod|);
  }

  // ---- rendering ----

  /** The arguments a format leaves for what follows it. */
  function Left(fmt: string, args: seq<Arg>): seq<Arg>
    decreases |fmt|
  {
    if fmt == "" then args
    else if fmt[0] != '%' then Left(fmt[1..], args)
    else
      var c := Parse(fmt[1..]);
      if c.None? then []
      else
        var t := Convert(c.value.0, args);
        if t.None? || t.value.1 > |args| then [] else Left(fmt[1 + c.value.1..], args[t.value.1..])
  }

  lemma {:induction false} ZerosMore(s: string, t: string)
    requires LeadingZeros(s) < |s|
    ensures LeadingZeros(s + t) == LeadingZeros(s)
  {
    if s[0] == '0' {
      assert (s + t)[1..] == s[1..] + t;
      ZerosMore(s[1..], t);
    }
  }

  lemma {:induction false} WidthMore(s: string, t: string, w: nat)
    requires Width(s, w).1 < |s|
    ensures Width(s + t, w) == Width(s, w)
    decreases |s|
  {
    if '0' <= s[0] <= '9' {
      assert (s + t)[1..] == s[1..] + t;
      WidthMore(s[1..], t, w * 10 + (s[0] as nat - '0' as nat));
    }
  }

  /** A conversion that is complete is read the same whatever follows it. */
  lemma ParseMore(s: string, t: string)
    requires Parse(s).Some?
    ensures Parse(s + t) == Parse(s)
  {
    hide LeadingZeros, Width;
    var z := LeadingZeros(s);
    ZerosMore(s, t);
    assert (s + t)[z..] == s[z..] + t;
    WidthMore(s[z..], t, 0);
    var n := z + Width(s[z..], 0).1;
    assert (s + t)[n..] == s[n..] + t;
    assert forall k :: 0 <= k < |s| ==> (s + t)[k] == s[k];
  }

  /** A format with no incomplete conversion, followed by another: the first prints as alone, the second with the
      arguments left. */
  lemma {:induction false} RenderConcat(f1: string, f2: string, args: seq<Arg>)
    requires Render(f1, args).whole
    ensures var r := Render(f2, Left(f1, args));
            Render(f1 + f2, args) == Rendering(Render(f1, args).text + r.text, r.whole)
    decreases |f1|
  {
    hide Convert, Parse;
    var r := Render(f2, Left(f1, args));
    if f1 == "" {
      assert f1 + f2 == f2 && "" + r.text == r.text;
    } else if f1[0] != '%' {
      assert (f1 + f2)[1..] == f1[1..] + f2;
      RenderConcat(f1[1..], f2, args);
      AppendThree([f1[0]], Render(f1[1..], args).text, r.text);
    } else {
      var c := Parse(f1[1..]).value;
      ParseMore(f1[1..], f2);
      assert (f1 + f2)[1..] == f1[1..] + f2;
      var t := Convert(c.0, args).value;
      assert (f1 + f2)[1 + c.1..] == f1[1 + c.1..] + f2;
      RenderConcat(f1[1 + c.1..], f2, args[t.1..]);
      AppendThree(t.0, Render(f1[1 + c.1..], args[t.1..]).text, r.text);
    }
  }

  /** Text without percent signs prints as it is and takes no argument. */
  lemma {:induction false} RenderText(s: string, args: seq<Arg>)
    requires '%' !in s
    ensures Render(s, args) == Rendering(s, true) && Left(s, args) == args
    decreases |s|
  {
    if s != "" {
      RenderText(s[1..], args);
      assert s == [s[0]] + s[1..];
    }
  }

  lemma RenderLast(s: string, args: seq<Arg>, n: nat)
    requires var c := Parse(s); c.Some? && c.value.1 == |s| && Convert(c.value.0, args).Some?
    requires n == Convert(Parse(s).value.0, args).value.1 <= |args|
    ensures Render("%" + s, args) == Rendering(Convert(Parse(s).value.0, args).value.0, true)
    ensures Left("%" + s, args) == args[n..]
  {
    hide Convert, Parse;
    var fmt, t := "%" + s, Convert(Parse(s).value.0, args).value;
    assert fmt[1..] == s && fmt[1 + |s|..] == "" && t.0 + "" == t.0;
    assert Render("", args[n..]) == Rendering("", true) && Left("", args[n..]) == args[n..];
  }

  /** A format that is one conversion. */
  lemma RenderOne(zeros: string, width: string, mod: string, c: char, args: seq<Arg>)
    requires IsConversion(zeros, width, mod, c)
    ensures var t := Convert(Spec(zeros != "", Value(width, 10), mod != "", c), args);
            var fmt := "%" + zeros + width + mod + [c];
            t.Some? && t.value.1 <= |args| ==>
              Render(fmt, args) == Rendering(t.value.0, true) && Left(fmt, args) == args[t.value.1..]
  {
    hide Convert, Parse, Value, IsConversion, Render, Left;
    var s := zeros + width + mod + [c];
    ParseReads(zeros, width, mod, c, "");
    assert s + "" == s && "%" + zeros + width + mod + [c] == "%" + s;
    var t := Convert(Spec(zeros != "", Value(width, 10), mod != "", c), args);
    if t.Some? && t.value.1 <= |args| {
      RenderLast(s, args, t.value.1);
    }
  }

  /** The number an argument word stands for: its low 32 bits, or 64 with a length modifier, and in two's complement
      for d and i. */
  function ArgumentValue(c: char, mod: string, w: nat): int {
    var two := if mod == "" then 0x1_0000_0000 else 0x1_0000_0000_0000_0000;
    var low := w % two;
    if (c == 'd' || c == 'i') && low >= two / 2 then low - two else low
  }

  predicate IsNumberConversion(c: char) {
    c == 'd' || c == 'i' || c == 'u' || c == 'x' || c == 'X'
  }

  lemma PaddedIs(s: string, width: nat, c: char)
    ensures var n := width - |s|;
            && Padded(s, width, c) == Repeat(c, n) + s && AllAre(Repeat(c, n), c)
            && |Padded(s, width, c)| == if |s| > width then |s| else width
  {
    RepeatIs(c, width - |s|);
  }

  /** d, i, u, x and X: the shortest numeral of the argument, in base 10, or 16 for x and X, in lower case but for
      X, behind as much fill as the width asks for: zeros with the zero flag, blanks without. */
  lemma NumberPrints(zeros: string, width: string, mod: string, c: char, w: nat, rest: seq<Arg>)
    returns (fill: string, numeral: string)
    requires IsConversion(zeros, width, mod, c) && IsNumberConversion(c)
    ensures var fmt := "%" + zeros + width + mod + [c];
            && Render(fmt, [Word(w)] + rest) == Rendering(fill + numeral, true)
            && Left(fmt, [Word(w)] + rest) == rest
    ensures IsNumeral(numeral, ArgumentValue(c, mod, w), if c == 'x' || c == 'X' then 16 else 10, c == 'X')
    ensures AllAre(fill, if zeros != "" then '0' else ' ')
    ensures |fill + numeral| == if |numeral| > Value(width, 10) then |numeral| else Value(width, 10)
  {
    hide Number, Value, Padded, IsConversion, IsNumeral, Render, Left;
    var args := [Word(w)] + rest;
    assert args[0] == Word(w) && args[1..] == rest;
    RenderOne(zeros, width, mod, c, args);
    var v, base := ArgumentValue(c, mod, w), if c == 'x' || c == 'X' then 16 else 10;
    var pad := if zeros != "" then '0' else ' ';
    numeral := Number(v, base, c == 'X');
    fill := Repeat(pad, Value(width, 10) - |numeral|);
    NumberIsNumeral(v, base, c == 'X');
    PaddedIs(numeral, Value(width, 10), pad);
  }

  lemma ZeroIsDigit()
    ensures IsDigit('0', 16, false)
  {
  }

  /** p: "0x" and the argument's 64 bits in sixteen hexadecimal digits, in lower case. */
  lemma PointerPrints(zeros: string, width: string, mod: string, w: nat, rest: seq<Arg>) returns (digits: string)
    requires IsConversion(zeros, width, mod, 'p')
    ensures var fmt := "%" + zeros + width + mod + "p";
            && Render(fmt, [Word(w)] + rest) == Rendering("0x" + digits, true)
            && Left(fmt, [Word(w)] + rest) == rest
    ensures |digits| == 16 && AllDigits(digits, 16, false) && Value(digits, 16) == w % 0x1_0000_0000_0000_0000
  {
    hide Value, Padded, IsConversion, Render, Left, IsDigit, Digits, Power;
    var args := [Word(w)] + rest;
    assert args[0] == Word(w) && args[1..] == rest;
    RenderOne(zeros, width, mod, 'p', args);
    var u := w % WORD64;
    var numeral := Number(u, 16, false);
    digits := Padded(numeral, 16, '0');
    PaddedIs(numeral, 16, '0');
    SixteenHexDigits();
    DigitsShort(u, 16, false, 16);
    DigitsReadBack(u, 16, false);
    DigitsAreDigits(u, 16, false);
    ZerosInFront(Repeat('0', 16 - |numeral|), numeral, 16);
    ZeroIsDigit();
  }

  /** s: the string, or "(null)" for a null pointer. */
  lemma StringPrints(zeros: string, width: string, mod: string, text: string, rest: seq<Arg>)
    requires IsConversion(zeros, width, mod, 's')
    ensures var fmt := "%" + zeros + width + mod + "s";
            && Render(fmt, [Text(text)] + rest) == Rendering(text, true) && Left(fmt, [Text(text)] + rest) == rest
            && Render(fmt, [NullText] + rest) == Rendering("(null)", true) && Left(fmt, [NullText] + rest) == rest
  {
    hide Value, IsConversion, Render, Left;
    var given, none := [Text(text)] + rest, [NullText] + rest;
    assert given[1..] == rest && none[1..] == rest;
    RenderOne(zeros, width, mod, 's', given);
    RenderOne(zeros, width, mod, 's', none);
  }

  /** c: the character of the argument's low byte. */
  lemma CharacterPrints(zeros: string, width: string, mod: string, w: nat, rest: seq<Arg>)
    requires IsConversion(zeros, width, mod, 'c')
    ensures var fmt := "%" + zeros + width + mod + "c";
            && Render(fmt, [Word(w)] + rest) == Rendering([(w % 256) as char], true)
            && Left(fmt, [Word(w)] + rest) == rest
  {
    hide Value, IsConversion, Render, Left;
    var args := [Word(w)] + rest;
    assert args[1..] == rest;
    RenderOne(zeros, width, mod, 'c', args);
  }

  /** A doubled percent sign is one, and an unknown conversion prints its character behind a percent sign; neither
      takes an argument. */
  lemma OthersPrint(zeros: string, width: string, mod: string, c: char, args: seq<Arg>)
    requires IsConversion(zeros, width, mod, c) && !IsNumberConversion(c) && c != 'p' && c != 's' && c != 'c'
    ensures var fmt := "%" + zeros + width + mod + [c];
            && Render(fmt, args) == Rendering(if c == '%' then "%" else "%" + [c], true)
            && Left(fmt, args) == args
  {
    hide Value, IsConversion, Render, Left;
    RenderOne(zeros, width, mod, c, args);
    assert args[0..] == args;
  }
}
