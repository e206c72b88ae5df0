/** Formatted output into a bounded buffer, and number parsing, of `kernel/util/printf.c`. */
module Printf {
  import opened Numerals
  import opened Wrappers

  // ---------------------------------------------------------------------------------------------
  // The buffer

  // The characters of a string, as far as they fit, and what a call writes beyond them is counted only.
  class Buffer {
    const data: array<char>
    var str: nat
    ghost var text: string

    // buf, of which size bytes may be written
    constructor (buf: array<char>)
      ensures data == buf && str == 0 && text == ""
    {
      data, str, text := buf, 0, "";
    }

    ghost predicate Valid()
      reads this, data
    {
      str == |text| && forall i :: 0 <= i < |text| && i < data.Length ==> data[i] == text[i]
    }

    // if (str <= end) *str = c; ++str;
    method Put(c: char)
      requires Valid()
      modifies this`str, this`text, data
      ensures Valid() && text == old(text) + [c]
    {
      if str < data.Length {
        data[str] := c;
      }
      str := str + 1;
      text := text + [c];
    }

    // while (n-- > 0) put c
    method Fill(c: char, n: int)
      requires Valid()
      modifies this`str, this`text, data
      ensures Valid() && text == old(text) + Repeat(c, n)
    {
      var k := n;
      while k > 0
        invariant Valid() && k <= n && (n >= 0 ==> k >= 0) && (n < 0 ==> k == n)
        invariant text == old(text) + Repeat(c, n - k)
        decreases k
      {
        Put(c);
        k := k - 1;
        RepeatNext(c, n - k - 1);
      }
    }

    method Write(s: string)
      requires Valid()
      modifies this`str, this`text, data
      ensures Valid() && text == old(text) + s
    {
      for i := 0 to |s|
        invariant Valid() && text == old(text) + s[..i]
      {
        Put(s[i]);
        assert s[..i + 1] == s[..i] + [s[i]];
      }
      assert s[..|s|] == s;
    }
  }

  function Repeat(c: char, n: int): (s: string)
    ensures |s| == if n > 0 then n else 0
    ensures forall i :: 0 <= i < |s| ==> s[i] == c
  {
    if n <= 0 then "" else Repeat(c, n - 1) + [c]
  }

  lemma RepeatNext(c: char, n: int)
    requires n >= 0
    ensures Repeat(c, n + 1) == Repeat(c, n) + [c]
  {
  }

  // ---------------------------------------------------------------------------------------------
  // Numbers

  datatype Flags = Flags(zeropad: bool, sign: bool, plus: bool, space: bool, left: bool, special: bool, large: bool)

  // The magnitude that is printed: a number without sign is taken modulo 2 to the 64.
  function Magnitude(num: int, sign: bool): nat
    requires -TWO_63 <= num < TWO_63
  {
    if num >= 0 then num else if sign then -num else num + TWO_64
  }

  function SignOf(num: int, f: Flags): string {
    if !f.sign then "" else if num < 0 then "-" else if f.plus then "+" else if f.space then " " else ""
  }

  function Prefix(base: int, f: Flags): string {
    if !f.special then "" else if base == 16 then (if f.large then "0X" else "0x") else if base == 8 then "0" else ""
  }

  function Max(a: int, b: int): int {
    if a > b then a else b
  }

  // The digits, with zeros up to the precision.
  function Body(num: int, base: int, precision: int, f: Flags): string
    requires -TWO_63 <= num < TWO_63 && 2 <= base <= 36
  {
    var digits := Digits(Magnitude(num, f.sign), base, f.large);
    Repeat('0', precision - |digits|) + digits
  }

  // A number in a field: padded before the sign with spaces, after the sign with zeros, or behind.
  function NumberText(num: int, base: int, size: int, precision: int, f: Flags): string
    requires -TWO_63 <= num < TWO_63
  {
    if base < 2 || base > 36 then ""
    else
      var head, body := SignOf(num, f) + Prefix(base, f), Body(num, base, precision, f);
      Padded(head, body, size - |head| - |body|, f)
  }

  // Spaces in front, zeros after the sign and prefix, or spaces behind.
  function Padded(head: string, body: string, pad: int, f: Flags): string {
    if f.left then head + body + Repeat(' ', pad)
    else if f.zeropad then head + Repeat('0', pad) + body
    else Repeat(' ', pad) + head + body
  }

  /** A field is never cut, and is filled up to its width. */
  lemma NumberWidth(num: int, base: int, size: int, precision: int, f: Flags)
    requires -TWO_63 <= num < TWO_63 && 2 <= base <= 36
    ensures |NumberText(num, base, size, precision, f)|
      == Max(size, |SignOf(num, f)| + |Prefix(base, f)| + Max(precision, |Digits(Magnitude(num, f.sign), base, f.large)|))
  {
  }

  const PLAIN := Flags(false, false, false, false, false, false, false)

  lemma PlainBody(num: int, base: nat, f: Flags)
    requires 2 <= base <= 36 && -TWO_63 <= num < TWO_63
    ensures Body(num, base, -1, f) == Digits(Magnitude(num, f.sign), base, f.large)
  {
    hide Digits, Magnitude;
    var digits := Digits(Magnitude(num, f.sign), base, f.large);
    assert Repeat('0', -1 - |digits|) + digits == digits;
  }

  // Without width and precision the text is sign, prefix and digits.
  lemma PlainText(num: int, base: nat, f: Flags)
    requires 2 <= base <= 36 && -TWO_63 <= num < TWO_63
    ensures NumberText(num, base, -1, -1, f) == SignOf(num, f) + Prefix(base, f) + Digits(Magnitude(num, f.sign), base, f.large)
  {
    hide Digits, SignOf, Prefix, Magnitude;
    PlainBody(num, base, f);
    hide Body;
    var head, body := SignOf(num, f) + Prefix(base, f), Body(num, base, -1, f);
    assert Repeat(' ', -1 - |head| - |body|) == "" && Repeat('0', -1 - |head| - |body|) == "";
    assert "" + head + body == head + body == head + "" + body == head + body + "";
  }

  /** The 64 bits of a number that is printed without sign are read back in the same base. */
  lemma UnsignedRoundTrip(num: int, base: nat, large: bool, after: string)
    requires 2 <= base <= 16 && -TWO_63 <= num < TWO_63 && Stops(after, base)
    ensures Strtoull(NumberText(num, base, -1, -1, PLAIN.(large := large)) + after, base).value == Magnitude(num, false)
  {
    hide Digits, Strtoull, NumberText;
    PlainText(num, base, PLAIN.(large := large));
    assert "" + "" + Digits(Magnitude(num, false), base, large) == Digits(Magnitude(num, false), base, large);
    StrtoullDigits(Magnitude(num, false), base, large, after);
  }

  /** A signed number is read back in the same base. */
  lemma SignedRoundTrip(num: int, base: nat, large: bool, after: string)
    requires 2 <= base <= 16 && -TWO_63 <= num < TWO_63 && Stops(after, base)
    ensures Strtoll(NumberText(num, base, -1, -1, PLAIN.(sign := true, large := large)) + after, base) == num
  {
    hide Digits, Strtoll, NumberText;
    PlainText(num, base, PLAIN.(sign := true, large := large));
    assert "" + "" + Digits(Magnitude(num, true), base, large) == Digits(Magnitude(num, true), base, large);
    assert "-" + "" + Digits(Magnitude(num, true), base, large) == "-" + Digits(Magnitude(num, true), base, large);
    StrtollDigits(num, base, large, after);
  }

  /** With the lower-case prefix it is read back also when the base is to be guessed. */
  lemma PrefixedRoundTrip(num: int, base: nat, after: string)
    requires (base == 8 || base == 16) && -TWO_63 <= num < TWO_63 && Stops(after, base)
    ensures Strtoull(NumberText(num, base, -1, -1, PLAIN.(special := true)) + after, 0).value == Magnitude(num, false)
  {
    hide Digits, Strtoull, NumberText;
    var f := PLAIN.(special := true);
    PlainText(num, base, f);
    assert "" + Prefix(base, f) + Digits(Magnitude(num, false), base, false) == Prefix(base, f) + Digits(Magnitude(num, false), base, false);
    StrtoullPrefixed(Magnitude(num, false), false, after);
  }

  /** So is a signed number, whose sign comes before the prefix. */
  lemma SignedPrefixedRoundTrip(num: int, base: nat, after: string)
    requires (base == 8 || base == 16) && -TWO_63 <= num < TWO_63 && Stops(after, base)
    ensures Strtoll(NumberText(num, base, -1, -1, PLAIN.(sign := true, special := true)) + after, 0) == num
  {
    hide Digits, Strtoull, NumberText;
    var f, n := PLAIN.(sign := true, special := true), Magnitude(num, true);
    PlainText(num, base, f);
    StrtoullPrefixed(n, false, after);
    SignFirst(num, Prefix(base, f) + Digits(n, base, false), NumberText(num, base, -1, -1, f), after);
  }

  // What simple_strtoll makes of a text behind the sign.
  lemma SignFirst(num: int, body: string, text: string, after: string)
    requires -TWO_63 <= num < TWO_63 && body != [] && body[0] != '-'
    requires text == (if num < 0 then "-" else "") + body
    ensures var n := Strtoull(body + after, 0).value % TWO_64;
      Strtoll(text + after, 0) == if num < 0 then ToSigned((TWO_64 - n) % TWO_64) else ToSigned(n)
  {
    hide Strtoull;
    if num < 0 {
      assert (text + after)[1..] == body + after;
    } else {
      assert text == body && (body + after)[0] == body[0];
    }
  }

  /** With base 0 a hexadecimal number that number writes with a prefix is read back exactly when the
      prefix is in lower case, or the number is zero. */
  lemma UpperPrefixRoundTrip(num: int, large: bool, after: string)
    requires -TWO_63 <= num < TWO_63 && Stops(after, 16)
    ensures Strtoull(NumberText(num, 16, -1, -1, PLAIN.(special := true, large := large)) + after, 0).value == Magnitude(num, false)
       <==> !large || num == 0
    ensures Strtoll(NumberText(num, 16, -1, -1, PLAIN.(sign := true, special := true, large := large)) + after, 0) == num
       <==> !large || num == 0
  {
    hide Digits, Strtoull, Strtoll, NumberText, Magnitude;
    if large {
      var f, g := PLAIN.(special := true, large := true), PLAIN.(sign := true, special := true, large := true);
      PlainText(num, 16, f);
      PlainText(num, 16, g);
      UpperPrefixLost(Magnitude(num, false), after);
      UpperPrefixLost(Magnitude(num, true), after);
      MagnitudeZero(num);
      assert NumberText(num, 16, -1, -1, f) == "0X" + Digits(Magnitude(num, false), 16, true);
      SignFirst(num, "0X" + Digits(Magnitude(num, true), 16, true), NumberText(num, 16, -1, -1, g), after);
    } else {
      PrefixedRoundTrip(num, 16, after);
      SignedPrefixedRoundTrip(num, 16, after);
    }
  }

  lemma MagnitudeZero(num: int)
    requires -TWO_63 <= num < TWO_63
    ensures Magnitude(num, false) == 0 <==> num == 0
    ensures ToSigned(0) == 0
  {
  }

  // ---------------------------------------------------------------------------------------------
  // number and simple_strtoull

  // The digits from tmp[i - 1] down.
  function Backwards(tmp: seq<char>): (s: string)
    ensures |s| == |tmp|
  {
    if tmp == [] then "" else [tmp[|tmp| - 1]] + Backwards(tmp[..|tmp| - 1])
  }

  lemma BackwardsNext(tmp: seq<char>, c: char)
    ensures Backwards(tmp + [c]) == [c] + Backwards(tmp)
  {
    assert (tmp + [c])[..|tmp|] == tmp;
  }

  // Room for the digits that are left: 64 binary ones at most.
  function Power2(k: nat): nat {
    if k == 0 then 1 else 2 * Power2(k - 1)
  }

  lemma HalfRoom(n: nat, base: nat, k: nat)
    requires n < Power2(k) && n > 0 && base >= 2
    ensures k > 0 && Quot(n, base) < Power2(k - 1)
  {
    hide Quot, Rem;
    Division(n, base);
    TwiceQuotient(Quot(n, base), base);
  }

  lemma TwiceQuotient(q: nat, base: nat)
    requires base >= 2
    ensures 2 * q <= q * base
  {
  }

  // The digits of num, the least significant first, in tmp[66].
  method FillDigits(num: nat, base: nat, large: bool, tmp: array<char>) returns (i: nat)
    requires 2 <= base <= 36 && num < TWO_64 && tmp.Length == 66
    modifies tmp
    ensures 0 < i <= 64 && Backwards(tmp[..i]) == Digits(num, base, large)
  {
    hide Digits, Backwards, DigitChar, Power2, Quot, Rem;
    i := 0;
    if num == 0 {
      tmp[0] := '0';
      ZeroDigits(base, large);
      assert tmp[..1] == ['0'];
      return 1;
    }
    var num2: nat := num;
    AllRoom();
    NoDigits();
    while num2 != 0
      invariant i <= 64 && num2 < Power2(64 - i) && (i == 0 ==> num2 == num)
      invariant num2 > 0 ==> Digits(num, base, large) == Digits(num2, base, large) + Backwards(tmp[..i])
      invariant num2 == 0 ==> Digits(num, base, large) == Backwards(tmp[..i])
      decreases num2
    {
      HalfRoom(num2, base, 64 - i);
      DigitsNext(num2, base, large, Backwards(tmp[..i]));
      ghost var before := tmp[..i];
      tmp[i] := DigitChar(Rem(num2, base), large);
      assert tmp[..i + 1] == before + [tmp[i]];
      BackwardsNext(before, tmp[i]);
      num2 := Quot(num2, base);
      i := i + 1;
    }
  }

  lemma ZeroDigits(base: nat, large: bool)
    requires 2 <= base <= 36
    ensures Digits(0, base, large) == "0" == Backwards(['0'])
  {
  }

  lemma NoDigits()
    ensures forall d: seq<char> :: |d| == 0 ==> Backwards(d) == ""
    ensures forall s: string :: s + "" == s
  {
  }

  lemma Double(x: nat, y: nat)
    ensures 2 * (x * y) == (2 * x) * y
  {
  }

  lemma {:induction false} PowerAdd(a: nat, b: nat)
    ensures Power2(a + b) == Power2(a) * Power2(b)
    decreases a
  {
    if a > 0 {
      PowerAdd(a - 1, b);
      Double(Power2(a - 1), Power2(b));
    }
  }

  lemma Square(a: nat, v: nat)
    requires Power2(a) == v
    ensures Power2(a + a) == v * v
  {
    PowerAdd(a, a);
  }

  lemma AllRoom()
    ensures Power2(64) == TWO_64
  {
    assert Power2(2) == 2 * Power2(1) && Power2(3) == 2 * Power2(2) && Power2(4) == 2 * Power2(3);
    Square(4, 16);
    Square(8, 256);
    Square(16, 65536);
    Square(32, 0x1_0000_0000);
  }

  lemma DigitsNext(n: nat, base: nat, large: bool, after: string)
    requires 2 <= base <= 36 && n > 0
    ensures Quot(n, base) < n && Rem(n, base) < base
    ensures Quot(n, base) > 0 ==>
      Digits(n, base, large) + after == Digits(Quot(n, base), base, large) + ([DigitChar(Rem(n, base), large)] + after)
    ensures Quot(n, base) == 0 ==> Digits(n, base, large) + after == [DigitChar(Rem(n, base), large)] + after
  {
    hide Quot, Rem, DigitChar;
    Division(n, base);
    if n >= base {
      assert Digits(n, base, large) == Digits(Quot(n, base), base, large) + [DigitChar(Rem(n, base), large)];
    }
  }

  // simple_strtoull
  method SimpleStrtoull(s: string, base0: nat) returns (result: nat, endp: nat)
    ensures Read(result, endp) == Strtoull(s, base0)
  {
    var base, cp := base0, 0;
    if base == 0 {
      base := 10;
      if s != [] && s[0] == '0' {
        base := 8;
        cp := 1;
        if |s| > 2 && s[1] == 'x' && IsXDigit(s[2]) {
          cp := 2;
          base := 16;
        }
      }
    }
    result := 0;
    while cp < |s| && Reads(s[cp], base)
      invariant cp <= |s| && Strtoull(s, base0) == ReadDigits(s, base, cp, result)
      decreases |s| - cp
    {
      result := Accumulate(result, base, DigitValue(s[cp]));
      cp := cp + 1;
    }
    endp := cp;
  }

  // number
  method Number(out: Buffer, num: int, base: int, size0: int, precision0: int, f: Flags)
    requires out.Valid() && -TWO_63 <= num < TWO_63
    modifies out, out.data
    ensures out.Valid() && out.text == old(out.text) + NumberText(num, base, size0, precision0, f)
  {
    hide Digits, Repeat, Backwards, NumberText, SignOf, Prefix;
    if base < 2 || base > 36 {
      NoNumber(num, base, size0, precision0, f);
      assert out.text + "" == out.text;
      return;
    }
    var size, precision := size0, precision0;
    var sign := SignOf(num, f);
    size := size - |sign|;
    var prefix := Prefix(base, f);
    size := size - |prefix|;
    var tmp := new char[66];
    var i := FillDigits(Magnitude(num, f.sign), base, f.large, tmp);
    if i > precision {
      precision := i;
    }
    size := size - precision;
    RepeatLength('0', precision0 - i, precision - i);
    ghost var head, body, pad := sign + prefix, Body(num, base, precision0, f), size;
    assert pad == size0 - |head| - |body| && body == Repeat('0', precision - i) + Backwards(tmp[..i]);
    EmitNumber(out, sign, prefix, precision - i, Backwards(tmp[..i]), size, f);
    NumberPieces(num, base, size0, precision0, f, head, body, pad);
  }

  // The part of number that writes.
  method EmitNumber(out: Buffer, sign: string, prefix: string, zeros: nat, digits: string, size0: int, f: Flags)
    requires out.Valid()
    modifies out, out.data
    ensures out.Valid()
    ensures out.text == old(out.text) + Padded(sign + prefix, Repeat('0', zeros) + digits, size0, f)
  {
    hide Repeat;
    ghost var text0, front, middle := out.text, "", "";
    var size := size0;
    if !f.zeropad && !f.left {
      out.Fill(' ', size);
      front := Repeat(' ', size);
      size := -1;
    }
    assert out.text == text0 + front;
    out.Write(sign);
    out.Write(prefix);
    RepeatLength(' ', -1, 0);
    RepeatLength('0', -1, 0);
    if !f.left {
      out.Fill(if f.zeropad then '0' else ' ', size);
      middle := Repeat(if f.zeropad then '0' else ' ', size);
      size := -1;
    }
    assert out.text == text0 + front + sign + prefix + middle;
    out.Fill('0', zeros);
    out.Write(digits);
    out.Fill(' ', size);
    assert out.text == text0 + front + sign + prefix + middle + Repeat('0', zeros) + digits + Repeat(' ', size);
    ghost var head, body := sign + prefix, Repeat('0', zeros) + digits;
    Pieces(text0, front, sign, prefix, head, middle, Repeat('0', zeros), digits, body, Repeat(' ', size));
    PaddedIs(head, body, size0, f, front, middle, Repeat(' ', size));
  }

  lemma NoNumber(num: int, base: int, size: int, precision: int, f: Flags)
    requires -TWO_63 <= num < TWO_63 && (base < 2 || base > 36)
    ensures NumberText(num, base, size, precision, f) == ""
  {
  }

  lemma Pieces(text0: string, front: string, sign: string, prefix: string, head: string, middle: string,
               zeros: string, digits: string, body: string, back: string)
    requires head == sign + prefix && body == zeros + digits
    ensures text0 + front + sign + prefix + middle + zeros + digits + back == text0 + (front + head + middle + body + back)
  {
  }

  // Where the padding of a number goes.
  lemma PaddedIs(head: string, body: string, pad: int, f: Flags, front: string, middle: string, back: string)
    requires front == if !f.left && !f.zeropad then Repeat(' ', pad) else ""
    requires middle == if !f.left && f.zeropad then Repeat('0', pad) else ""
    requires back == if f.left then Repeat(' ', pad) else ""
    ensures front + head + middle + body + back == Padded(head, body, pad, f)
  {
    hide Repeat;
    if f.left {
      assert "" + head + "" + body + back == head + body + back;
    } else if f.zeropad {
      assert "" + head + middle + body + "" == head + middle + body;
    } else {
      assert front + head + "" + body + "" == front + head + body;
    }
  }

  lemma NumberPieces(num: int, base: int, size: int, precision: int, f: Flags, head: string, body: string, pad: int)
    requires -TWO_63 <= num < TWO_63 && 2 <= base <= 36
    requires head == SignOf(num, f) + Prefix(base, f) && body == Body(num, base, precision, f) && pad == size - |head| - |body|
    ensures Padded(head, body, pad, f) == NumberText(num, base, size, precision, f)
  {
  }

  lemma RepeatLength(c: char, n: int, m: int)
    requires m == Max(n, 0)
    ensures Repeat(c, n) == Repeat(c, m) && |Repeat(c, m)| == m
    ensures m == 0 ==> Repeat(c, n) == ""
  {
  }

  // ---------------------------------------------------------------------------------------------
  // The format language

  // What va_arg takes, a pointer to a number as its address; a missing argument, or one of the other kind, reads
  // as 0 and as an empty string.
  datatype Arg = Num(num: int) | Text(text: Option<string>)

  function NumOf(args: seq<Arg>): int {
    if args != [] && args[0].Num? then args[0].num else 0
  }

  function TextOf(args: seq<Arg>): Option<string> {
    if args != [] && args[0].Text? then args[0].text else Some("")
  }

  function Rest(args: seq<Arg>): seq<Arg> {
    if args == [] then [] else args[1..]
  }

  function Wrap(num: int, bits: int, signed: bool): (r: int)
    requires bits == TWO_64 || bits == 0x1_0000_0000 || bits == 0x1_0000
    ensures bits < TWO_64 || signed ==> -TWO_63 <= r < TWO_63
  {
    var n := num % bits;
    if signed && n >= bits / 2 then n - bits else n
  }

  // The integer that a qualifier takes: long long, long, size_t, short, or int.
  function Converted(num: int, qualifier: char, signed: bool): (r: int)
    ensures -TWO_63 <= r < TWO_63
  {
    if qualifier == 'L' then Wrap(num, TWO_64, true)
    else if qualifier == 'Z' then Wrap(num, 0x1_0000_0000, false)
    else if qualifier == 'h' then Wrap(num, 0x1_0000, signed)
    else Wrap(num, 0x1_0000_0000, signed)
  }

  function WithFlag(f: Flags, c: char): Flags {
    if c == '-' then f.(left := true)
    else if c == '+' then f.(plus := true)
    else if c == ' ' then f.(space := true)
    else if c == '#' then f.(special := true)
    else f.(zeropad := true)
  }

  predicate IsFlag(c: char) {
    c == '-' || c == '+' || c == ' ' || c == '#' || c == '0'
  }

  function SkipFlags(fmt: string, f: Flags): (Flags, string)
    decreases |fmt|
  {
    if fmt != [] && IsFlag(fmt[0]) then SkipFlags(fmt[1..], WithFlag(f, fmt[0])) else (f, fmt)
  }

  // skip_atoi
  function SkipNumber(fmt: string, i: int): (int, string)
    decreases |fmt|
  {
    if fmt != [] && IsDigit(fmt[0]) then SkipNumber(fmt[1..], i * 10 + (fmt[0] as int - '0' as int)) else (i, fmt)
  }

  datatype Spec = Spec(flags: Flags, width: int, precision: int, qualifier: char, fmt: string, args: seq<Arg>)

  function WidthStep(s: Spec): Spec {
    if s.fmt == [] then s
    else if IsDigit(s.fmt[0]) then
      var n := SkipNumber(s.fmt, 0);
      s.(width := n.0, fmt := n.1)
    else if s.fmt[0] == '*' then
      var w := NumOf(s.args);
      s.(width := if w < 0 then -w else w, flags := if w < 0 then s.flags.(left := true) else s.flags,
         fmt := s.fmt[1..], args := Rest(s.args))
    else s
  }

  function PrecisionStep(s: Spec): Spec {
    if s.fmt == [] || s.fmt[0] != '.' then s
    else
      var t := s.(fmt := s.fmt[1..], precision := 0);
      if t.fmt == [] then t
      else if IsDigit(t.fmt[0]) then
        var n := SkipNumber(t.fmt, 0);
        t.(precision := Max(n.0, 0), fmt := n.1)
      else if t.fmt[0] == '*' then t.(precision := Max(NumOf(t.args), 0), fmt := t.fmt[1..], args := Rest(t.args))
      else t
  }

  function QualifierStep(s: Spec): Spec {
    var t :=
      if s.fmt == [] || s.fmt[0] !in {'h', 'l', 'L', 'Z'} then s
      else if s.fmt[0] == 'l' && |s.fmt| > 1 && s.fmt[1] == 'l' then s.(qualifier := 'L', fmt := s.fmt[2..])
      else s.(qualifier := s.fmt[0], fmt := s.fmt[1..]);
    if t.fmt != [] && t.fmt[0] == 'q' then t.(qualifier := 'L', fmt := t.fmt[1..]) else t
  }

  // Everything between a percent sign and the conversion character.
  function ReadSpec(fmt: string, args: seq<Arg>): Spec {
    var f := SkipFlags(fmt, PLAIN);
    QualifierStep(PrecisionStep(WidthStep(Spec(f.0, -1, -1, ' ', f.1, args))))
  }

  function StringText(s: Option<string>, width: int, precision: int, left: bool): string {
    var all := if s == None then "<NULL>" else s.value;
    var shown := if 0 <= precision < |all| then all[..precision] else all;
    if left then shown + Repeat(' ', width - |shown|) else Repeat(' ', width - |shown|) + shown
  }

  function CharText(c: char, width: int, left: bool): string {
    if left then [c] + Repeat(' ', width - 1) else Repeat(' ', width - 1) + [c]
  }

  // The low byte of an int, as a character.
  function ByteOf(n: int): char {
    (n % 256) as char
  }

  // The base and flags of an integer conversion.
  function IntegerBase(c: char): int {
    if c == 'o' then 8 else if c == 'x' || c == 'X' then 16 else 10
  }

  function IntegerFlags(c: char, f: Flags): Flags {
    f.(large := c == 'X', sign := c == 'd' || c == 'i')
  }

  datatype Piece = Piece(text: string, fmt: string, args: seq<Arg>)

  // What a conversion prints, and what is left of the format and of the arguments.
  function Convert(s: Spec): Piece {
    if s.fmt == [] then Piece("%", "", s.args)
    else
      var c, rest := s.fmt[0], s.fmt[1..];
      if c == 'c' then Piece(CharText(ByteOf(NumOf(s.args)), s.width, s.flags.left), rest, Rest(s.args))
      else if c == 's' then Piece(StringText(TextOf(s.args), s.width, s.precision, s.flags.left), rest, Rest(s.args))
      else if c == 'p' then
        Piece(NumberText(Wrap(NumOf(s.args), 0x1_0000_0000, false), 16, if s.width == -1 then 8 else s.width, s.precision,
                         if s.width == -1 then s.flags.(zeropad := true) else s.flags), rest, Rest(s.args))
      else if c == 'n' then Piece("", rest, Rest(s.args))
      else if c == '%' then Piece("%", rest, s.args)
      else if c in {'o', 'X', 'x', 'd', 'i', 'u'} then
        var f := IntegerFlags(c, s.flags);
        Piece(NumberText(Converted(NumOf(s.args), s.qualifier, f.sign), IntegerBase(c), s.width, s.precision, f), rest, Rest(s.args))
      else Piece(['%', c], rest, s.args)
  }

  lemma SpecShorter(fmt: string, args: seq<Arg>)
    ensures |ReadSpec(fmt, args).fmt| <= |fmt|
  {
    SkipShorter(fmt, PLAIN);
    var f := SkipFlags(fmt, PLAIN).1;
    NumberShorter(f, 0);
    var w := WidthStep(Spec(SkipFlags(fmt, PLAIN).0, -1, -1, ' ', f, args));
    if w.fmt != [] {
      NumberShorter(w.fmt[1..], 0);
    }
  }

  lemma {:induction false} SkipShorter(fmt: string, f: Flags)
    ensures |SkipFlags(fmt, f).1| <= |fmt|
    decreases |fmt|
  {
    if fmt != [] && IsFlag(fmt[0]) {
      SkipShorter(fmt[1..], WithFlag(f, fmt[0]));
    }
  }

  lemma {:induction false} NumberShorter(fmt: string, i: int)
    ensures |SkipNumber(fmt, i).1| <= |fmt|
    decreases |fmt|
  {
    if fmt != [] && IsDigit(fmt[0]) {
      NumberShorter(fmt[1..], i * 10 + (fmt[0] as int - '0' as int));
    }
  }

  lemma DirectiveShorter(fmt: string, args: seq<Arg>)
    ensures |Convert(ReadSpec(fmt, args)).fmt| <= |fmt|
  {
    hide ReadSpec, NumberText, CharText, StringText;
    SpecShorter(fmt, args);
  }

  // The whole output of a format.
  function Formatted(fmt: string, args: seq<Arg>): string
    decreases |fmt|
  {
    if fmt == [] then ""
    else if fmt[0] != '%' then [fmt[0]] + Formatted(fmt[1..], args)
    else
      DirectiveShorter(fmt[1..], args);
      var p := Convert(ReadSpec(fmt[1..], args));
      p.text + Formatted(p.fmt, p.args)
  }

  // What %n stores, and where.
  datatype Store = Store(addr: int, count: nat)

  function StoreOf(s: Spec, written: nat): seq<Store> {
    if s.fmt != [] && s.fmt[0] == 'n' then [Store(NumOf(s.args), written)] else []
  }

  // The stores of a format, after so many characters.
  function Stores(fmt: string, args: seq<Arg>, written: nat): seq<Store>
    decreases |fmt|
  {
    if fmt == [] then []
    else if fmt[0] != '%' then Stores(fmt[1..], args, written + 1)
    else
      DirectiveShorter(fmt[1..], args);
      var s := ReadSpec(fmt[1..], args);
      var p := Convert(s);
      StoreOf(s, written) + Stores(p.fmt, p.args, written + |p.text|)
  }

  /** What %n stores never decreases, and never exceeds the length of the output. */
  lemma {:induction false} StoresInOrder(fmt: string, args: seq<Arg>, written: nat)
    ensures forall i :: 0 <= i < |Stores(fmt, args, written)| ==>
      written <= Stores(fmt, args, written)[i].count <= written + |Formatted(fmt, args)|
    ensures forall i, j :: 0 <= i < j < |Stores(fmt, args, written)| ==>
      Stores(fmt, args, written)[i].count <= Stores(fmt, args, written)[j].count
    decreases |fmt|
  {
    hide ReadSpec, Convert, Stores, Formatted;
    if fmt == [] {
      StoresEnd(args, written);
    } else if fmt[0] != '%' {
      StoresChar(fmt, args, written);
      FormattedChar(fmt, args);
      StoresInOrder(fmt[1..], args, written + 1);
    } else {
      StoresSpec(fmt, args, written);
      FormattedSpec(fmt, args);
      var p := Convert(ReadSpec(fmt[1..], args));
      StoresInOrder(p.fmt, p.args, written + |p.text|);
    }
  }

  /** What %n stores is the length of the output of what comes before it. */
  lemma {:induction false} StoresPrefix(before: string, addr: int, after: string, rest: seq<Arg>, written: nat)
    requires '%' !in before
    ensures Stores(before + "%n" + after, [Num(addr)] + rest, written) == [Store(addr, written + |before|)] + Stores(after, rest, written + |before|)
    ensures Formatted(before + "%n" + after, [Num(addr)] + rest) == before + Formatted(after, rest)
    decreases |before|
  {
    hide Convert, ReadSpec, Formatted;
    var fmt := before + "%n" + after;
    if before == [] {
      assert fmt[1..] == "n" + after;
      PlainN(after, [Num(addr)] + rest);
      FormattedSpec(fmt, [Num(addr)] + rest);
    } else {
      assert fmt[1..] == before[1..] + "%n" + after;
      FormattedChar(fmt, [Num(addr)] + rest);
      StoresPrefix(before[1..], addr, after, rest, written + 1);
    }
  }

  lemma PlainN(after: string, args: seq<Arg>)
    ensures var s := ReadSpec("n" + after, args); s.args == args && s.fmt == "n" + after && Convert(s) == Piece("", after, Rest(args))
  {
  }

  // ---------------------------------------------------------------------------------------------
  // vsnprintf

  method ReadFlags(fmt0: string) returns (f: Flags, fmt: string)
    ensures (f, fmt) == SkipFlags(fmt0, PLAIN)
  {
    f, fmt := PLAIN, fmt0;
    while fmt != [] && IsFlag(fmt[0])
      invariant SkipFlags(fmt0, PLAIN) == SkipFlags(fmt, f)
      decreases |fmt|
    {
      f := WithFlag(f, fmt[0]);
      fmt := fmt[1..];
    }
  }

  method SkipAtoi(fmt0: string) returns (i: int, fmt: string)
    ensures (i, fmt) == SkipNumber(fmt0, 0)
  {
    i, fmt := 0, fmt0;
    while fmt != [] && IsDigit(fmt[0])
      invariant SkipNumber(fmt0, 0) == SkipNumber(fmt, i)
      decreases |fmt|
    {
      i := i * 10 + (fmt[0] as int - '0' as int);
      fmt := fmt[1..];
    }
  }

  method ReadWidth(s0: Spec) returns (s: Spec)
    ensures s == WidthStep(s0)
  {
    hide SkipNumber;
    s := s0;
    if s.fmt != [] {
      if IsDigit(s.fmt[0]) {
        var n, rest := SkipAtoi(s.fmt);
        s := s.(width := n, fmt := rest);
      } else if s.fmt[0] == '*' {
        var w := NumOf(s.args);
        s := s.(fmt := s.fmt[1..], args := Rest(s.args));
        if w < 0 {
          s := s.(width := -w, flags := s.flags.(left := true));
        } else {
          s := s.(width := w);
        }
      }
    }
  }

  method ReadPrecision(s0: Spec) returns (s: Spec)
    ensures s == PrecisionStep(s0)
  {
    hide SkipNumber;
    s := s0;
    if s.fmt != [] && s.fmt[0] == '.' {
      s := s.(fmt := s.fmt[1..]);
      var precision := -1;
      if s.fmt != [] {
        if IsDigit(s.fmt[0]) {
          var n, rest := SkipAtoi(s.fmt);
          precision := n;
          s := s.(fmt := rest);
        } else if s.fmt[0] == '*' {
          precision := NumOf(s.args);
          s := s.(fmt := s.fmt[1..], args := Rest(s.args));
        }
      }
      if precision < 0 {
        precision := 0;
      }
      s := s.(precision := precision);
    }
  }

  method ReadDirective(fmt0: string, args0: seq<Arg>) returns (s: Spec)
    ensures s == ReadSpec(fmt0, args0)
  {
    hide SkipFlags, WidthStep, PrecisionStep, QualifierStep;
    var f, fmt := ReadFlags(fmt0);
    s := Spec(f, -1, -1, ' ', fmt, args0);
    s := ReadWidth(s);
    s := ReadPrecision(s);
    s := QualifierStep(s);
  }

  method WriteString(out: Buffer, text: Option<string>, width: int, precision: int, left: bool)
    requires out.Valid()
    modifies out, out.data
    ensures out.Valid() && out.text == old(out.text) + StringText(text, width, precision, left)
  {
    hide Repeat, StringText;
    var all := if text == None then "<NULL>" else text.value;
    var len := if 0 <= precision < |all| then precision else |all|;
    ghost var text0 := out.text;
    StringTextIs(text, width, precision, left, all, len, text0);
    if !left {
      out.Fill(' ', width - len);
      out.Write(all[..len]);
    } else {
      out.Write(all[..len]);
      out.Fill(' ', width - len);
    }
  }

  lemma StringTextIs(text: Option<string>, width: int, precision: int, left: bool, all: string, len: nat, text0: string)
    requires all == (if text == None then "<NULL>" else text.value) && len == if 0 <= precision < |all| then precision else |all|
    ensures text0 + StringText(text, width, precision, left)
      == if left then text0 + all[..len] + Repeat(' ', width - len) else text0 + Repeat(' ', width - len) + all[..len]
  {
    hide Repeat;
    assert all[..|all|] == all;
  }

  method WriteChar(out: Buffer, c: char, width: int, left: bool)
    requires out.Valid()
    modifies out, out.data
    ensures out.Valid() && out.text == old(out.text) + CharText(c, width, left)
  {
    hide Repeat;
    ghost var text0 := out.text;
    if !left {
      out.Fill(' ', width - 1);
      out.Put(c);
      assert out.text == text0 + (Repeat(' ', width - 1) + [c]);
    } else {
      out.Put(c);
      out.Fill(' ', width - 1);
      assert out.text == text0 + ([c] + Repeat(' ', width - 1));
    }
  }

  // The conversion character and its output.
  method WriteConversion(out: Buffer, s: Spec) returns (fmt: string, args: seq<Arg>, stores: seq<Store>)
    requires out.Valid()
    modifies out, out.data
    ensures out.Valid() && stores == StoreOf(s, |old(out.text)|)
    ensures var p := Convert(s); out.text == old(out.text) + p.text && fmt == p.fmt && args == p.args
  {
    hide NumberText, CharText, StringText, Converted, Wrap;
    ghost var text0 := out.text;
    args, stores := s.args, [];
    if s.fmt == [] {
      out.Put('%');
      return "", args, [];
    }
    var c := s.fmt[0];
    fmt := s.fmt[1..];
    if c == 'c' {
      args := Rest(args);
      WriteChar(out, ByteOf(NumOf(s.args)), s.width, s.flags.left);
    } else if c == 's' {
      args := Rest(args);
      WriteString(out, TextOf(s.args), s.width, s.precision, s.flags.left);
    } else if c == 'p' {
      var width, flags := s.width, s.flags;
      if width == -1 {
        width := 8;
        flags := flags.(zeropad := true);
      }
      args := Rest(args);
      Number(out, Wrap(NumOf(s.args), 0x1_0000_0000, false), 16, width, s.precision, flags);
    } else if c == 'n' {
      args := Rest(args);
      stores := [Store(NumOf(s.args), out.str)];
      assert text0 + "" == text0;
    } else if c == '%' {
      out.Put('%');
    } else if c in {'o', 'X', 'x', 'd', 'i', 'u'} {
      var flags := IntegerFlags(c, s.flags);
      args := Rest(args);
      Number(out, Converted(NumOf(s.args), s.qualifier, flags.sign), IntegerBase(c), s.width, s.precision, flags);
    } else {
      out.Put('%');
      out.Put(c);
      assert text0 + ['%'] + [c] == text0 + ['%', c];
    }
  }

  /** vsnprintf: whatever the size of the buffer, it returns the length of the whole output, and the buffer
      holds as much of it as fits before a final NUL; a buffer of size 0 is not touched. What it stores
      for %n, outside the buffer, is listed. */
  method Vsnprintf(buf: array<char>, fmt0: string, args0: seq<Arg>) returns (n: nat, stores: seq<Store>)
    modifies buf
    ensures n == |Formatted(fmt0, args0)| && stores == Stores(fmt0, args0, 0)
    ensures buf.Length > 0 ==>
      var k := if n < buf.Length then n else buf.Length - 1;
      buf[..k] == Formatted(fmt0, args0)[..k] && buf[k] == 0 as char
  {
    hide ReadSpec, Convert, Stores, StoreOf, Formatted;
    var out := new Buffer(buf);
    var fmt, args := fmt0, args0;
    stores := [];
    ghost var whole, all := Formatted(fmt0, args0), Stores(fmt0, args0, 0);
    assert whole == "" + Formatted(fmt, args);
    while fmt != []
      invariant out.Valid() && out.data == buf && fresh(out)
      invariant whole == out.text + Formatted(fmt, args)
      invariant all == stores + Stores(fmt, args, |out.text|)
      decreases |fmt|
    {
      ghost var text0 := out.text;
      if fmt[0] != '%' {
        FormattedChar(fmt, args);
        StoresChar(fmt, args, |text0|);
        out.Put(fmt[0]);
        assert text0 + ([fmt[0]] + Formatted(fmt[1..], args)) == text0 + [fmt[0]] + Formatted(fmt[1..], args);
        fmt := fmt[1..];
      } else {
        FormattedSpec(fmt, args);
        StoresSpec(fmt, args, |text0|);
        var s := ReadDirective(fmt[1..], args);
        ghost var p := Convert(s);
        var more;
        fmt, args, more := WriteConversion(out, s);
        assert text0 + (p.text + Formatted(fmt, args)) == text0 + p.text + Formatted(fmt, args);
        assert stores + (more + Stores(fmt, args, |out.text|)) == stores + more + Stores(fmt, args, |out.text|);
        stores := stores + more;
      }
    }
    FormattedEnd(args);
    StoresEnd(args, |out.text|);
    n := out.str;
    assert whole == out.text;
    if n < buf.Length {
      buf[n] := 0 as char;
    } else if buf.Length > 0 {
      buf[buf.Length - 1] := 0 as char;
    }
  }

  lemma StoresEnd(args: seq<Arg>, written: nat)
    ensures Stores("", args, written) == []
  {
  }

  lemma StoresChar(fmt: string, args: seq<Arg>, written: nat)
    requires fmt != [] && fmt[0] != '%'
    ensures Stores(fmt, args, written) == Stores(fmt[1..], args, written + 1)
  {
  }

  lemma StoresSpec(fmt: string, args: seq<Arg>, written: nat)
    requires fmt != [] && fmt[0] == '%'
    ensures var s := ReadSpec(fmt[1..], args); var p := Convert(s);
      |p.fmt| < |fmt| && Stores(fmt, args, written) == StoreOf(s, written) + Stores(p.fmt, p.args, written + |p.text|)
  {
    hide ReadSpec, Convert, StoreOf;
    DirectiveShorter(fmt[1..], args);
  }

  lemma FormattedEnd(args: seq<Arg>)
    ensures Formatted("", args) == ""
  {
  }

  lemma FormattedChar(fmt: string, args: seq<Arg>)
    requires fmt != [] && fmt[0] != '%'
    ensures Formatted(fmt, args) == [fmt[0]] + Formatted(fmt[1..], args)
  {
  }

  lemma FormattedSpec(fmt: string, args: seq<Arg>)
    requires fmt != [] && fmt[0] == '%'
    ensures var p := Convert(ReadSpec(fmt[1..], args)); |p.fmt| < |fmt| && Formatted(fmt, args) == p.text + Formatted(p.fmt, p.args)
  {
    hide ReadSpec, Convert;
    DirectiveShorter(fmt[1..], args);
  }
}
