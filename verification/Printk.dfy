/** The kernel's formatter, kernel/core/printk.c: numbers, the unbounded rendering of a format, and the
    bounded printer that writes a prefix of it. */
module Printk {
  import opened Wrappers
  import opened Bytes
  import opened Arith

  // ---- numbers ----

  function Digit(d: nat, upper: bool): char
    requires d < 16
  {
    if upper then "0123456789ABCDEF"[d] else "0123456789abcdef"[d]
  }

  /** The digits of u, most significant first. */
  function Digits(u: nat, base: nat, upper: bool): (s: string)
    requires 2 <= base <= 16
    ensures |s| > 0
  {
    if u < base then [Digit(u, upper)] else Digits(u / base, base, upper) + [Digit(u % base, upper)]
  }

  function Number(v: int, base: nat, upper: bool): string
    requires 2 <= base <= 16
  {
    if v < 0 then "-" + Digits(-v, base, upper) else Digits(v, base, upper)
  }

  function DigitValue(c: char): nat {
    if '0' <= c <= '9' then c as nat - '0' as nat
    else if 'a' <= c <= 'f' then c as nat - 'a' as nat + 10
    else if 'A' <= c <= 'F' then c as nat - 'A' as nat + 10
    else 0
  }

  /** Reads digits back. */
  function Value(s: string, base: nat): nat {
    if s == "" then 0 else Value(s[..|s| - 1], base) * base + DigitValue(s[|s| - 1])
  }

  function SignedValue(s: string, base: nat): int {
    var minus := s != "" && s[0] == '-';
    var v: int := Value(if minus then s[1..] else s, base);
    if minus then -v else v
  }

  lemma DigitReads(d: nat, upper: bool)
    requires d < 16
    ensures DigitValue(Digit(d, upper)) == d && Digit(d, upper) != '-'
  {
  }

  lemma Joined(u: nat, base: nat)
    requires base > 0
    ensures u / base * base + u % base == u
  {
  }

  lemma ValueOfOneMore(s: string, c: char, base: nat)
    ensures Value(s + [c], base) == Value(s, base) * base + DigitValue(c)
  {
    assert (s + [c])[..|s|] == s;
  }

  lemma ValueOfNone(base: nat)
    ensures Value("", base) * base == 0
  {
  }

  /** Digits read back give the number. */
  lemma {:induction false} DigitsReadBack(u: nat, base: nat, upper: bool)
    requires 2 <= base <= 16
    ensures Value(Digits(u, base, upper), base) == u && Digits(u, base, upper)[0] != '-'
  {
    hide Value, DigitValue, Digit;
    if u < base {
      DigitReads(u, upper);
      ValueOfOneMore("", Digit(u, upper), base);
      ValueOfNone(base);
      assert "" + [Digit(u, upper)] == [Digit(u, upper)];
    } else {
      DigitsReadBack(u / base, base, upper);
      DigitReads(u % base, upper);
      Joined(u, base);
      ValueOfOneMore(Digits(u / base, base, upper), Digit(u % base, upper), base);
    }
  }

  /** What itoa writes, read back in the same base, is the number. */
  lemma NumberReadsBack(v: int, base: nat, upper: bool)
    requires 2 <= base <= 16
    ensures SignedValue(Number(v, base, upper), base) == v
  {
    DigitsReadBack(if v < 0 then -v else v, base, upper);
    assert v < 0 ==> Number(v, base, upper)[1..] == Digits(-v, base, upper);
  }

  // ---- itoa ----

  function Rev(s: string): (r: string)
    ensures |r| == |s| && forall k :: 0 <= k < |s| ==> r[k] == s[|s| - 1 - k]
  {
    if s == "" then "" else Rev(s[1..]) + [s[0]]
  }

  lemma RevIs(s: string, r: string)
    requires |r| == |s| && forall k :: 0 <= k < |s| ==> r[k] == s[|s| - 1 - k]
    ensures r == Rev(s)
  {
  }

  lemma RevNone()
    ensures Rev("") == ""
  {
  }

  lemma RevHead(c: char, s: string)
    ensures Rev([c] + s) == Rev(s) + [c]
  {
    assert ([c] + s)[1..] == s;
  }

  /** Digits from the least significant on, as itoa's loop makes them; none for zero. */
  function LowFirst(u: nat, base: nat, upper: bool): string
    requires 2 <= base <= 16
  {
    if u == 0 then "" else [Digit(u % base, upper)] + LowFirst(u / base, base, upper)
  }

  lemma LowFirstStep(u: nat, base: nat, upper: bool)
    requires 2 <= base <= 16
    ensures LowFirst(u, base, upper) ==
            if u == 0 then "" else [Digit(u % base, upper)] + LowFirst(u / base, base, upper)
  {
  }

  lemma DigitsStep(u: nat, base: nat, upper: bool)
    requires 2 <= base <= 16
    ensures Digits(u, base, upper) ==
            if u < base then [Digit(u, upper)] else Digits(u / base, base, upper) + [Digit(u % base, upper)]
  {
  }

  lemma Smaller(u: nat, base: nat)
    requires base >= 2 && u > 0
    ensures u / base < u
    ensures if u < base then u / base == 0 && u % base == u else u / base > 0
  {
  }

  lemma {:induction false} LowFirstReversed(u: nat, base: nat, upper: bool)
    requires 2 <= base <= 16 && u > 0
    ensures Rev(LowFirst(u, base, upper)) == Digits(u, base, upper)
  {
    hide Digit, Rev, Digits, LowFirst;
    var q, c := u / base, Digit(u % base, upper);
    LowFirstStep(u, base, upper);
    LowFirstStep(0, base, upper);
    DigitsStep(u, base, upper);
    RevHead(c, LowFirst(q, base, upper));
    RevNone();
    Smaller(u, base);
    if u >= base {
      LowFirstReversed(q, base, upper);
    }
  }

  function Ten(k: nat): nat {
    if k == 0 then 1 else 10 * Ten(k - 1)
  }

  lemma {:induction false} TenAdd(a: nat, b: nat)
    ensures Ten(a + b) == Ten(a) * Ten(b)
  {
    if a > 0 {
      TenAdd(a - 1, b);
    }
  }

  lemma FitsTwentyDigits()
    ensures Ten(20) > WORD64
  {
    assert Ten(5) == 100_000;
    TenAdd(5, 5);
    TenAdd(10, 10);
  }

  lemma Shrinks(u: nat, base: nat, n: nat)
    requires base >= 10 && u < 10 * n
    ensures u / base < n
  {
    var q := u / base;
    Joined(u, base);
    MulLe(10, base, q);
    assert base * q == q * base;
  }

  lemma {:induction false} LowFirstShort(u: nat, base: nat, upper: bool, k: nat)
    requires 10 <= base <= 16 && u < Ten(k)
    ensures |LowFirst(u, base, upper)| <= k
    decreases k
  {
    hide Digit;
    if u > 0 {
      Shrinks(u, base, Ten(k - 1));
      LowFirstShort(u / base, base, upper, k - 1);
    }
  }

  /** Reverses the first len characters in place. */
  method Reverse(str: array<char>, len: nat)
    requires len <= str.Length
    modifies str
    ensures str[..len] == Rev(old(str[..len])) && str[len..] == old(str[len..])
  {
    hide Rev;
    var i, j := 0, len - 1;
    while i < j
      invariant 0 <= i <= len && j == len - 1 - i
      invariant i <= j + 2
      invariant forall k :: 0 <= k < i ==> str[k] == old(str[len - 1 - k]) && str[len - 1 - k] == old(str[k])
      invariant forall k :: i <= k <= j ==> str[k] == old(str[k])
      invariant forall k :: len <= k < str.Length ==> str[k] == old(str[k])
    {
      str[i], str[j] := str[j], str[i];
      i, j := i + 1, j - 1;
    }
    forall k | 0 <= k < len ensures str[k] == old(str[len - 1 - k]) {
      if k >= i && k > j {
        assert str[len - 1 - (len - 1 - k)] == old(str[len - 1 - k]);
      }
    }
    RevIs(old(str[..len]), str[..len]);
  }

  lemma ShiftOne(done: string, c: char, rest: string)
    ensures done + [c] + rest == done + ([c] + rest)
  {
  }

  /** Writes digits from the least significant on. */
  method PutDigits(u: nat, buf: array<char>, base: nat, upper: bool) returns (i: nat)
    requires (base == 10 || base == 16) && u < WORD64 && buf.Length >= 32
    modifies buf
    ensures i <= 20 && buf[..i] == if u == 0 then "0" else LowFirst(u, base, upper)
  {
    hide Digit, Digits, LowFirst, Ten;
    i := 0;
    var uval: nat := u;
    ghost var all := LowFirst(u, base, upper);
    FitsTwentyDigits();
    LowFirstShort(u, base, upper, 20);
    if uval == 0 {
      buf[i] := '0';
      i := 1;
    }
    while uval != 0
      invariant i <= 20 && (u == 0 ==> uval == 0 && i == 1 && buf[0] == '0')
      invariant u != 0 ==> buf[..i] + LowFirst(uval, base, upper) == all
      decreases 20 - i
    {
      ghost var done, rest := buf[..i], LowFirst(uval, base, upper);
      LowFirstStep(uval, base, upper);
      assert |done + rest| <= 20;
      buf[i] := Digit(uval % base, upper);
      i := i + 1;
      uval := uval / base;
      ShiftOne(done, rest[0], LowFirst(uval, base, upper));
      assert buf[..i] == done + [rest[0]];
    }
    LowFirstStep(0, base, upper);
  }

  lemma RevIsDigits(u: nat, base: nat, upper: bool)
    requires 2 <= base <= 16
    ensures Rev(if u == 0 then "0" else LowFirst(u, base, upper)) == Digits(u, base, upper)
  {
    if u == 0 {
      assert Rev("0") == "0" && Digits(0, base, upper) == [Digit(0, upper)];
    } else {
      LowFirstReversed(u, base, upper);
    }
  }

  lemma {:induction false} RevLast(s: string)
    ensures Rev(s + "-") == "-" + Rev(s)
  {
    var a, b := Rev(s + "-"), "-" + Rev(s);
    forall k | 0 <= k < |a| ensures a[k] == b[k] {
    }
  }

  /** The digits from the low end, with the sign last, are the number backwards. */
  lemma NumberBackwards(val: int, base: nat, upper: bool, body: string)
    requires 2 <= base <= 16
    requires var u: nat := if val < 0 then -val else val; body == if u == 0 then "0" else LowFirst(u, base, upper)
    ensures Rev(if val < 0 then body + "-" else body) == Number(val, base, upper)
  {
    hide Digits, LowFirst, Digit, Rev;
    RevIsDigits(if val < 0 then -val else val, base, upper);
    RevLast(body);
  }

  /** Writes a number and a NUL; numbers of up to 64 bits fit in 32 characters. */
  method Itoa(val: int, buf: array<char>, base: nat, upper: bool) returns (len: nat)
    requires base == 10 || base == 16
    requires -WORD64 < val < WORD64 && buf.Length >= 32
    modifies buf
    ensures len < buf.Length && buf[..len] == Number(val, base, upper) && buf[len] == '\0'
  {
    hide Digits, LowFirst, Digit, Rev, Number;
    var uval: nat := if val < 0 then -val else val;
    var i := PutDigits(uval, buf, base, upper);
    ghost var body := buf[..i];
    if val < 0 {
      buf[i] := '-';
      i := i + 1;
    }
    ghost var text := if val < 0 then body + "-" else body;
    assert buf[..i] == text;
    buf[i] := '\0';
    assert buf[..i] == text;
    Reverse(buf, i);
    NumberBackwards(val, base, upper, body);
    assert buf[i..][0] == '\0';
    len := i;
  }

  // ---- formats ----

  /** An argument as va_arg finds it: a 64-bit word, or a string, which may be null. */
  datatype Arg = Word(w: nat) | Text(text: string) | NullText

  /** A conversion, without its percent sign. */
  datatype Spec = Spec(zeroPad: bool, width: nat, long: bool, conv: char)

  function LeadingZeros(s: string): (n: nat)
    ensures n <= |s|
  {
    if s != "" && s[0] == '0' then 1 + LeadingZeros(s[1..]) else 0
  }

  /** The width read from leading digits, continuing from w, and how many there are. */
  function Width(s: string, w: nat): (r: (nat, nat))
    ensures r.1 <= |s|
  {
    if s != "" && '0' <= s[0] <= '9' then
      var r := Width(s[1..], w * 10 + (s[0] as nat - '0' as nat));
      (r.0, r.1 + 1)
    else (w, 0)
  }

  /** The length modifier's size: l, ll, z or none. */
  function Modifier(s: string): (n: nat)
    ensures n <= |s|
  {
    if s != "" && s[0] == 'l' then if |s| > 1 && s[1] == 'l' then 2 else 1
    else if s != "" && s[0] == 'z' then 1
    else 0
  }

  /** The rest of a conversion once flags and width are read, up to f. */
  function ParseRest(s: string, zeroPad: bool, width: nat, f: nat): (r: Option<(Spec, nat)>)
    requires f <= |s|
    ensures r.Some? ==> f < r.value.1 <= |s|
  {
    var m := Modifier(s[f..]);
    if f + m >= |s| then None else Some((Spec(zeroPad, width, m > 0, s[f + m]), f + m + 1))
  }

  /** The conversion at the start of s, and how many characters it takes; none if the format ends first. */
  function Parse(s: string): (r: Option<(Spec, nat)>)
    ensures r.Some? ==> 0 < r.value.1 <= |s|
  {
    var z := LeadingZeros(s);
    var w := Width(s[z..], 0);
    ParseRest(s, z > 0, w.0, z + w.1)
  }

  function Repeat(c: char, n: int): string
    decreases n
  {
    if n <= 0 then "" else [c] + Repeat(c, n - 1)
  }

  /** An int or long argument: 32 or 64 bits, two's complement when signed. */
  function Unsigned(w: nat, long: bool): (v: nat)
    ensures v < WORD64
  {
    if long then w % WORD64 else w % WORD
  }

  function Signed(w: nat, long: bool): (v: int)
    ensures -WORD64 < v < WORD64
  {
    var u, top := Unsigned(w, long), if long then WORD64 else WORD;
    if u < top / 2 then u else u - top
  }

  function Padded(s: string, width: nat, c: char): string {
    Repeat(c, width - |s|) + s
  }

  /** What a conversion prints, and how many arguments it takes; none if the argument is missing or of
      the wrong kind. */
  function Convert(spec: Spec, args: seq<Arg>): Option<(string, nat)> {
    var fill := if spec.zeroPad then '0' else ' ';
    var word := args != [] && args[0].Word?;
    match spec.conv
    case 'd' =>
      if word then Some((Padded(Number(Signed(args[0].w, spec.long), 10, false), spec.width, fill), 1)) else None
    case 'i' =>
      if word then Some((Padded(Number(Signed(args[0].w, spec.long), 10, false), spec.width, fill), 1)) else None
    case 'u' =>
      if word then Some((Padded(Number(Unsigned(args[0].w, spec.long), 10, false), spec.width, fill), 1)) else None
    case 'x' =>
      if word then Some((Padded(Number(Unsigned(args[0].w, spec.long), 16, false), spec.width, fill), 1)) else None
    case 'X' =>
      if word then Some((Padded(Number(Unsigned(args[0].w, spec.long), 16, true), spec.width, fill), 1)) else None
    case 'p' => if word then Some(("0x" + Padded(Number(Unsigned(args[0].w, true), 16, false), 16, '0'), 1)) else None
    case 's' =>
      if args != [] && args[0].Text? then Some((args[0].text, 1))
      else if args != [] && args[0].NullText? then Some(("(null)", 1))
      else None
    case 'c' => if word then Some(([(args[0].w % 256) as char], 1)) else None
    case '%' => Some(("%", 0))
    case _ => Some(("%" + [spec.conv], 0))
  }

  /** The text of a format with no bound, up to a conversion that the format ends inside or that lacks its
      argument, and whether there is no such conversion. */
  datatype Rendering = Rendering(text: string, whole: bool)

  function Render(fmt: string, args: seq<Arg>): Rendering
    decreases |fmt|
  {
    if fmt == "" then Rendering("", true)
    else if fmt[0] != '%' then
      var r := Render(fmt[1..], args);
      Rendering([fmt[0]] + r.text, r.whole)
    else
      var c := Parse(fmt[1..]);
      if c.None? then Rendering("", false)
      else
        var t := Convert(c.value.0, args);
        if t.None? || t.value.1 > |args| then Rendering("", false)
        else
          var r := Render(fmt[1 + c.value.1..], args[t.value.1..]);
          Rendering(t.value.0 + r.text, r.whole)
  }

  lemma RenderPlain(fmt: string, f: nat, args: seq<Arg>)
    requires f < |fmt| && fmt[f] != '%'
    ensures var r := Render(fmt[f + 1..], args);
            Render(fmt[f..], args) == Rendering([fmt[f]] + r.text, r.whole)
  {
    assert fmt[f..][1..] == fmt[f + 1..];
  }

  /** Past a conversion that is there and has its argument. */
  lemma RenderConversion(fmt: string, f: nat, args: seq<Arg>, a: nat)
    requires f < |fmt| && fmt[f] == '%' && a <= |args| && Render(fmt[f..], args[a..]) != Rendering("", false)
    ensures var c := Parse(fmt[f + 1..]);
            && c.Some? && Convert(c.value.0, args[a..]).Some?
            && var t := Convert(c.value.0, args[a..]).value;
               && a + t.1 <= |args| && f + 1 + c.value.1 <= |fmt|
               && var r := Render(fmt[f + 1 + c.value.1..], args[a + t.1..]);
                  Render(fmt[f..], args[a..]) == Rendering(t.0 + r.text, r.whole)
  {
    hide Convert, Parse;
    var c := Parse(fmt[f + 1..]);
    assert fmt[f..][1..] == fmt[f + 1..];
    if c.Some? {
      assert fmt[f..][1 + c.value.1..] == fmt[f + 1 + c.value.1..];
      var t := Convert(c.value.0, args[a..]);
      if t.Some? && t.value.1 <= |args[a..]| {
        assert args[a..][t.value.1..] == args[a + t.value.1..];
      }
    }
  }

  function Prefix(s: string, n: nat): string {
    if |s| <= n then s else s[..n]
  }

  // ---- the bounded printer ----

  /** Appends a character if there is room below end. */
  method Put(buf: array<char>, end: nat, p: nat, c: char) returns (q: nat)
    requires p <= end < buf.Length
    modifies buf
    ensures q == (if p < end then p + 1 else p) && buf[..q] == Prefix(old(buf[..p]) + [c], end)
    ensures buf[end + 1..] == old(buf[end + 1..])
  {
    q := p;
    if q < end {
      buf[q] := c;
      q := q + 1;
    }
  }

  lemma PrefixMore(s: string, t: string, n: nat)
    ensures Prefix(Prefix(s, n) + t, n) == Prefix(s + t, n)
  {
  }

  /** Appends what fits of a string. */
  method PutAll(buf: array<char>, end: nat, p: nat, s: string) returns (q: nat)
    requires p <= end < buf.Length
    modifies buf
    ensures q <= end && buf[..q] == Prefix(old(buf[..p]) + s, end)
    ensures buf[end + 1..] == old(buf[end + 1..])
  {
    q := p;
    var i := 0;
    assert s[..0] == "";
    while i < |s| && q < end
      invariant i <= |s| && q <= end && q == p + i
      invariant buf[..q] == old(buf[..p]) + s[..i]
      invariant buf[end + 1..] == old(buf[end + 1..])
    {
      ghost var was := buf[..q];
      buf[q] := s[i];
      q := q + 1;
      i := i + 1;
      assert buf[..q] == was + [s[i - 1]];
    }
    assert old(buf[..p]) + s == old(buf[..p]) + s[..i] + s[i..];
  }

  lemma {:induction false} RepeatMore(c: char, n: nat)
    ensures Repeat(c, n) + [c] == Repeat(c, n + 1)
  {
    if n > 0 {
      RepeatMore(c, n - 1);
    }
  }

  /** Appends n fill characters, as many as fit. */
  method PutFill(buf: array<char>, end: nat, p: nat, c: char, n: int) returns (q: nat)
    requires p <= end < buf.Length
    modifies buf
    ensures q <= end && buf[..q] == Prefix(old(buf[..p]) + Repeat(c, n), end)
    ensures buf[end + 1..] == old(buf[end + 1..])
  {
    q := p;
    var i := 0;
    while i < n
      invariant 0 <= i && (i <= n || i == 0) && q <= end
      invariant buf[..q] == Prefix(old(buf[..p]) + Repeat(c, i), end)
      invariant buf[end + 1..] == old(buf[end + 1..])
    {
      RepeatMore(c, i);
      ghost var done := old(buf[..p]) + Repeat(c, i);
      PrefixMore(done, [c], end);
      assert done + [c] == old(buf[..p]) + Repeat(c, i + 1);
      q := Put(buf, end, q, c);
      i := i + 1;
    }
  }

  /** Skips the zero flags. */
  method ReadZeros(fmt: string, start: nat) returns (f: nat)
    requires start <= |fmt|
    ensures f == start + LeadingZeros(fmt[start..])
  {
    f := start;
    while f < |fmt| && fmt[f] == '0'
      invariant start <= f <= |fmt|
      invariant LeadingZeros(fmt[start..]) == f - start + LeadingZeros(fmt[f..])
    {
      assert fmt[f..][1..] == fmt[f + 1..];
      f := f + 1;
    }
  }

  method ReadWidth(fmt: string, start: nat) returns (width: nat, f: nat)
    requires start <= |fmt|
    ensures Width(fmt[start..], 0) == (width, f - start) && start <= f <= |fmt|
  {
    f, width := start, 0;
    while f < |fmt| && '0' <= fmt[f] <= '9'
      invariant start <= f <= |fmt|
      invariant Width(fmt[start..], 0).0 == Width(fmt[f..], width).0
      invariant Width(fmt[start..], 0).1 == f - start + Width(fmt[f..], width).1
    {
      assert fmt[f..][1..] == fmt[f + 1..];
      width := width * 10 + (fmt[f] as nat - '0' as nat);
      f := f + 1;
    }
  }

  method ReadModifier(fmt: string, start: nat) returns (isLong: bool, f: nat)
    requires start <= |fmt|
    ensures f == start + Modifier(fmt[start..]) && start <= f <= |fmt| && (isLong <==> f > start)
  {
    f, isLong := start, false;
    if f < |fmt| && fmt[f] == 'l' {
      isLong := true;
      f := f + 1;
      if f < |fmt| && fmt[f] == 'l' {
        f := f + 1;
      }
    } else if f < |fmt| && fmt[f] == 'z' {
      isLong := true;
      f := f + 1;
    }
  }

  /** Reads flags, width, length modifier and conversion character. */
  method ReadSpec(fmt: string, start: nat) returns (spec: Spec, next: nat)
    requires start <= |fmt| && Parse(fmt[start..]).Some?
    ensures start < next <= |fmt| && Parse(fmt[start..]) == Some((spec, next - start))
  {
    hide Width, LeadingZeros, Modifier;
    var z := ReadZeros(fmt, start);
    assert fmt[start..][z - start..] == fmt[z..];
    var width, f := ReadWidth(fmt, z);
    assert fmt[start..][f - start..] == fmt[f..];
    var isLong;
    isLong, f := ReadModifier(fmt, f);
    spec := Spec(z > start, width, isLong, fmt[f]);
    next := f + 1;
  }

  /** Prints a number right-aligned in its width. */
  method PutNumber(buf: array<char>, end: nat, p: nat, val: int, base: nat, upper: bool, width: nat, fill: char)
    returns (q: nat)
    requires p <= end < buf.Length && (base == 10 || base == 16) && -WORD64 < val < WORD64
    modifies buf
    ensures q <= end && buf[..q] == Prefix(old(buf[..p]) + Padded(Number(val, base, upper), width, fill), end)
    ensures buf[end + 1..] == old(buf[end + 1..])
  {
    hide Number, Prefix, Repeat;
    var numbuf := new char[32];
    var len := Itoa(val, numbuf, base, upper);
    var n := PutFill(buf, end, p, fill, width - len);
    ghost var before, pad := old(buf[..p]), Repeat(fill, width - len);
    PrefixMore(before + pad, numbuf[..len], end);
    assert before + pad + numbuf[..len] == before + Padded(Number(val, base, upper), width, fill);
    q := PutAll(buf, end, n, numbuf[..len]);
  }

  /** Prints one conversion. */
  method PutConversion(buf: array<char>, end: nat, p: nat, spec: Spec, args: seq<Arg>) returns (q: nat, used: nat)
    requires p <= end < buf.Length && Convert(spec, args).Some?
    modifies buf
    ensures q <= end && used == Convert(spec, args).value.1 <= |args|
    ensures buf[..q] == Prefix(old(buf[..p]) + Convert(spec, args).value.0, end)
    ensures buf[end + 1..] == old(buf[end + 1..])
  {
    hide Number, Prefix, Repeat, Padded, Signed, Unsigned;
    var fill := if spec.zeroPad then '0' else ' ';
    used := 1;
    match spec.conv {
      case 'd' => q := PutNumber(buf, end, p, Signed(args[0].w, spec.long), 10, false, spec.width, fill);
      case 'i' => q := PutNumber(buf, end, p, Signed(args[0].w, spec.long), 10, false, spec.width, fill);
      case 'u' => q := PutNumber(buf, end, p, Unsigned(args[0].w, spec.long), 10, false, spec.width, fill);
      case 'x' => q := PutNumber(buf, end, p, Unsigned(args[0].w, spec.long), 16, false, spec.width, fill);
      case 'X' => q := PutNumber(buf, end, p, Unsigned(args[0].w, spec.long), 16, true, spec.width, fill);
      case 'p' =>
        ghost var before, text := buf[..p], Padded(Number(Unsigned(args[0].w, true), 16, false), 16, '0');
        var n := PutAll(buf, end, p, "0x");
        PrefixMore(before + "0x", text, end);
        assert before + "0x" + text == before + ("0x" + text);
        q := PutNumber(buf, end, n, Unsigned(args[0].w, true), 16, false, 16, '0');
      case 's' => q := PutAll(buf, end, p, if args[0].NullText? then "(null)" else args[0].text);
      case 'c' => q := PutAll(buf, end, p, [(args[0].w % 256) as char]);
      case '%' =>
        q := PutAll(buf, end, p, "%");
        used := 0;
      case _ =>
        q := PutAll(buf, end, p, "%" + [spec.conv]);
        used := 0;
    }
  }

  lemma PrefixOf(s: string, n: int)
    ensures n >= 0 && |s| <= n ==> Prefix(s, n) == s
  {
  }

  lemma RenderNothing(args: seq<Arg>)
    ensures Render("", args) == Rendering("", true)
  {
  }

  /** Once the prefix is full, more text does not change it. */
  lemma PrefixFull(s: string, t: string, n: nat)
    requires s <= t && (t == s || |Prefix(s, n)| >= n)
    ensures Prefix(t, n) == Prefix(s, n)
  {
  }

  /** The rendering is what was printed so far and the rest. */
  predicate Splits(all: Rendering, out: string, rest: Rendering) {
    all == Rendering(out + rest.text, rest.whole)
  }

  lemma SplitsMore(all: Rendering, out: string, text: string, r: Rendering, rest: Rendering)
    requires Splits(all, out, r) && r == Rendering(text + rest.text, rest.whole)
    ensures Splits(all, out + text, rest)
  {
    assert out + (text + rest.text) == out + text + rest.text;
  }

  lemma SplitsStart(all: Rendering)
    ensures Splits(all, "", all)
  {
  }

  /** The printer stops when nothing is left or the buffer is full. */
  lemma SplitsEnd(all: Rendering, out: string, rest: Rendering, end: nat)
    requires Splits(all, out, rest) && (rest == Rendering("", true) || |Prefix(out, end)| >= end)
    ensures Prefix(out, end) == Prefix(all.text, end)
  {
    hide Prefix;
    PrefixFull(out, all.text, end);
  }

  /** Before the buffer is full a conversion that comes next is there and has its argument. */
  lemma SplitsGoesOn(all: Rendering, out: string, rest: Rendering, end: nat)
    requires Splits(all, out, rest) && |Prefix(out, end)| < end && (all.whole || |all.text| >= end)
    ensures rest != Rendering("", false)
  {
  }

  /** One round of the printer: a plain character or a conversion. */
  method PutNext(buf: array<char>, end: nat, p: nat, fmt: string, f: nat, args: seq<Arg>, a: nat)
    returns (q: nat, next: nat, b: nat, ghost text: string)
    requires p < end < buf.Length && f < |fmt| && a <= |args| && Render(fmt[f..], args[a..]) != Rendering("", false)
    modifies buf
    ensures q <= end && f < next <= |fmt| && b <= |args|
    ensures var rest := Render(fmt[next..], args[b..]);
            Render(fmt[f..], args[a..]) == Rendering(text + rest.text, rest.whole)
    ensures buf[..q] == Prefix(old(buf[..p]) + text, end) && buf[end + 1..] == old(buf[end + 1..])
  {
    hide Prefix, Convert, Parse, Render;
    if fmt[f] != '%' {
      RenderPlain(fmt, f, args[a..]);
      text := [fmt[f]];
      q := Put(buf, end, p, fmt[f]);
      next, b := f + 1, a;
    } else {
      RenderConversion(fmt, f, args, a);
      var spec, used;
      spec, next := ReadSpec(fmt, f + 1);
      text := Convert(spec, args[a..]).value.0;
      q, used := PutConversion(buf, end, p, spec, args[a..]);
      b := a + used;
    }
  }

  lemma PrefixIs(s: string, n: nat)
    ensures Prefix(s, n) == if |s| < n + 1 then s else s[..n]
  {
  }

  /** Prints into a buffer of the given size: the first size - 1 characters of the text and a NUL, and
      nothing past the size. It needs the text to be whole only as far as it prints it. With size 0 the NUL
      is written all the same, at the buffer's first place. */
  method Kvsnprintf(buf: array<char>, size: nat, fmt: string, args: seq<Arg>) returns (n: nat)
    requires size <= buf.Length && 0 < buf.Length
    requires var r := Render(fmt, args); r.whole || |r.text| >= size - 1
    modifies buf
    ensures size > 0 ==>
              var text := Render(fmt, args).text;
              n < size && buf[..n] == if |text| < size then text else text[..size - 1]
    ensures size > 0 ==> buf[size..] == old(buf[size..])
    ensures size == 0 ==> n == 0 && buf[1..] == old(buf[1..])
    ensures buf[n] == '\0'
  {
    hide Prefix, Convert, Parse, Render, Splits;
    var p: nat, f: nat, a: nat := 0, 0, 0;
    var end := size - 1;
    ghost var all, out := Render(fmt, args), "";
    PrefixOf("", end);
    assert fmt[0..] == fmt && args[0..] == args;
    SplitsStart(all);
    while f < |fmt| && p < end
      invariant f <= |fmt| && a <= |args| && (p <= end || p == 0)
      invariant size > 0 ==> buf[..p] == Prefix(out, end)
      invariant Splits(all, out, Render(fmt[f..], args[a..]))
      invariant buf[size..] == old(buf[size..])
    {
      ghost var rest, text := Render(fmt[f..], args[a..]), "";
      SplitsGoesOn(all, out, rest, end);
      p, f, a, text := PutNext(buf, end, p, fmt, f, args, a);
      SplitsMore(all, out, text, rest, Render(fmt[f..], args[a..]));
      PrefixMore(out, text, end);
      out := out + text;
    }
    if f == |fmt| {
      assert fmt[f..] == "";
      RenderNothing(args[a..]);
    }
    if size > 0 {
      SplitsEnd(all, out, Render(fmt[f..], args[a..]), end);
      PrefixIs(all.text, end);
    }
    buf[p] := '\0';
    n := p;
  }
}
