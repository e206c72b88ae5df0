/** What the conversions of `kernel/util/printf.c` mean: from the text of a format to what can be read back from its
    output. */
module PrintfLaws {
  import opened Numerals
  import opened Printf
  import opened Wrappers

  // ---------------------------------------------------------------------------------------------
  // Reading a directive

  // Nothing that belongs before the conversion character.
  predicate Starts(fmt: string) {
    fmt != [] && !IsFlag(fmt[0]) && !IsDigit(fmt[0]) && fmt[0] !in {'*', '.', 'h', 'l', 'L', 'Z', 'q'}
  }

  // The flags f and those that fl asks for.
  function FlagsOf(f: Flags, fl: string): Flags {
    Flags(f.zeropad || '0' in fl, f.sign, f.plus || '+' in fl, f.space || ' ' in fl, f.left || '-' in fl, f.special || '#' in fl, f.large)
  }

  predicate AllFlags(fl: string) {
    forall i :: 0 <= i < |fl| ==> fl[i] in {'-', '+', ' ', '#', '0'}
  }

  lemma FirstFlag(f: Flags, fl: string)
    requires fl != [] && AllFlags(fl)
    ensures FlagsOf(WithFlag(f, fl[0]), fl[1..]) == FlagsOf(f, fl)
  {
    InFirst(fl, '0');
    InFirst(fl, '+');
    InFirst(fl, ' ');
    InFirst(fl, '-');
    InFirst(fl, '#');
    assert fl[0] in {'-', '+', ' ', '#', '0'};
  }

  lemma InFirst(s: string, c: char)
    requires s != []
    ensures c in s <==> c == s[0] || c in s[1..]
  {
    assert s == [s[0]] + s[1..];
  }

  lemma {:induction false} FlagsRead(fl: string, tail: string, f: Flags)
    requires AllFlags(fl) && (tail == [] || !IsFlag(tail[0]))
    ensures SkipFlags(fl + tail, f) == (FlagsOf(f, fl), tail)
    decreases |fl|
  {
    if fl == [] {
      assert fl + tail == tail;
    } else {
      var rest := fl[1..];
      assert (fl + tail)[0] == fl[0] && (fl + tail)[1..] == rest + tail;
      FirstFlag(f, fl);
      hide FlagsOf, WithFlag;
      FlagsRead(rest, tail, WithFlag(f, fl[0]));
    }
  }

  // The digits of a decimal number, in front of more.
  lemma {:induction false} NumberRead(n: nat, tail: string)
    ensures SkipNumber(Digits(n, 10, false) + tail, 0) == SkipNumber(tail, n)
    decreases n
  {
    if n < 10 {
      var s := Digits(n, 10, false) + tail;
      assert s[0] == DigitChar(n, false) && s[1..] == tail;
    } else {
      Division(n, 10);
      var q, c := Quot(n, 10), DigitChar(Rem(n, 10), false);
      NumberRead(q, [c] + tail);
      assert Digits(n, 10, false) + tail == Digits(q, 10, false) + ([c] + tail);
      assert ([c] + tail)[1..] == tail;
    }
  }

  lemma NumberEnds(n: nat, tail: string)
    requires tail == [] || !IsDigit(tail[0])
    ensures SkipNumber(Digits(n, 10, false) + tail, 0) == (n, tail)
  {
    hide Digits;
    NumberRead(n, tail);
  }

  function Shown(n: Option<nat>): string {
    if n == None then "" else Digits(n.value, 10, false)
  }

  lemma DecimalStart(n: nat)
    ensures IsDigit(Digits(n, 10, false)[0]) && (n > 0 ==> Digits(n, 10, false)[0] != '0')
    decreases n
  {
    if n >= 10 {
      Division(n, 10);
      DecimalStart(Quot(n, 10));
      assert Digits(n, 10, false)[0] == Digits(Quot(n, 10), 10, false)[0];
    }
  }

  lemma WidthRead(s: Spec, width: Option<nat>, tail: string)
    requires s.fmt == Shown(width) + tail && s.width == -1
    requires tail == [] || (!IsDigit(tail[0]) && tail[0] != '*')
    ensures WidthStep(s) == s.(width := if width == None then -1 else width.value, fmt := tail)
  {
    hide Digits, SkipNumber;
    if width.Some? {
      DecimalStart(width.value);
      assert s.fmt[0] == Shown(width)[0];
      NumberEnds(width.value, tail);
    } else {
      assert s.fmt == tail;
    }
  }

  lemma PrecisionRead(s: Spec, precision: Option<nat>, tail: string)
    requires s.fmt == (if precision == None then "" else "." + Shown(precision)) + tail && s.precision == -1
    requires tail != [] && !IsDigit(tail[0]) && tail[0] != '*' && tail[0] != '.'
    ensures PrecisionStep(s) == s.(precision := if precision == None then -1 else precision.value, fmt := tail)
  {
    hide Digits, SkipNumber;
    if precision.Some? {
      DecimalStart(precision.value);
      assert s.fmt[1..] == Shown(precision) + tail;
      assert s.fmt[1..][0] == Shown(precision)[0];
      NumberEnds(precision.value, tail);
    } else {
      assert s.fmt == tail;
    }
  }

  predicate IsQualifier(q: string) {
    q in {"", "h", "l", "Z", "ll", "L", "q"}
  }

  // long long has two more spellings.
  function Letter(q: string): char
    requires IsQualifier(q)
  {
    if q == "" then ' ' else if q in {"ll", "L", "q"} then 'L' else q[0]
  }

  // How many values the type has that a qualifier stands for: short, long long, or one of 32 bits.
  function Modulus(q: string): int {
    if q == "h" then 0x1_0000 else if q in {"ll", "L", "q"} then 0x1_0000_0000_0000_0000 else 0x1_0000_0000
  }

  lemma QualifierRead(s: Spec, q: string, tail: string)
    requires IsQualifier(q) && Starts(tail) && s.fmt == q + tail && s.qualifier == ' '
    ensures QualifierStep(s) == s.(qualifier := Letter(q), fmt := tail)
  {
    assert q == "" ==> s.fmt == tail;
    assert |q| == 1 ==> s.fmt[0] == q[0] && s.fmt[1] == tail[0] && s.fmt[1..] == tail;
    assert |q| == 2 ==> s.fmt[0] == 'l' && s.fmt[1] == 'l' && s.fmt[2..] == tail;
  }

  function Directive(fl: string, width: Option<nat>, precision: Option<nat>, q: string, tail: string): string {
    fl + (Shown(width) + ((if precision == None then "" else "." + Shown(precision)) + (q + tail)))
  }

  /** Flags, width, precision and qualifier are read as they are written. */
  lemma DirectiveRead(fl: string, width: Option<nat>, precision: Option<nat>, q: string, tail: string, args: seq<Arg>)
    requires AllFlags(fl) && width != Some(0) && IsQualifier(q) && Starts(tail)
    ensures ReadSpec(Directive(fl, width, precision, q, tail), args)
      == Spec(Flags('0' in fl, false, '+' in fl, ' ' in fl, '-' in fl, '#' in fl, false), if width == None then -1 else width.value,
              if precision == None then -1 else precision.value, Letter(q), tail, args)
  {
    hide Digits, SkipNumber, SkipFlags, WidthStep, PrecisionStep, QualifierStep;
    var t3 := q + tail;
    assert t3[0] == if q == "" then tail[0] else q[0];
    var t2 := (if precision == None then "" else "." + Shown(precision)) + t3;
    assert t2[0] == if precision == None then t3[0] else '.';
    var t1 := Shown(width) + t2;
    if width.Some? {
      DecimalStart(width.value);
      assert t1[0] == Shown(width)[0];
    } else {
      assert t1 == t2;
    }
    FlagsRead(fl, t1, PLAIN);
    var f := SkipFlags(fl + t1, PLAIN);
    var s0 := Spec(f.0, -1, -1, ' ', f.1, args);
    WidthRead(s0, width, t2);
    var s1 := WidthStep(s0);
    PrecisionRead(s1, precision, t3);
    QualifierRead(PrecisionStep(s1), q, tail);
  }

  // A format that starts with a directive.
  lemma DirectivePiece(fl: string, width: Option<nat>, precision: Option<nat>, q: string, tail: string, args: seq<Arg>)
    requires AllFlags(fl) && width != Some(0) && IsQualifier(q) && Starts(tail)
    ensures var p := Convert(Spec(Flags('0' in fl, false, '+' in fl, ' ' in fl, '-' in fl, '#' in fl, false),
                                  if width == None then -1 else width.value, if precision == None then -1 else precision.value,
                                  Letter(q), tail, args));
      Formatted("%" + Directive(fl, width, precision, q, tail), args) == p.text + Formatted(p.fmt, p.args)
  {
    hide Convert, ReadSpec, Directive, Formatted;
    var fmt := "%" + Directive(fl, width, precision, q, tail);
    assert fmt[1..] == Directive(fl, width, precision, q, tail);
    DirectiveRead(fl, width, precision, q, tail, args);
    FormattedSpec(fmt, args);
  }

  predicate IsInteger(c: char) {
    c in {'o', 'X', 'x', 'd', 'i', 'u'}
  }

  function BaseOf(c: char): int {
    match c
    case 'o' => 8
    case 'x' => 16
    case 'X' => 16
    case _ => 10
  }

  // What an integer conversion with these flags, width and precision prints.
  function IntegerText(fl: string, width: Option<nat>, precision: Option<nat>, q: string, c: char, v: int): string
    requires IsQualifier(q)
  {
    NumberText(Converted(v, Letter(q), c == 'd' || c == 'i'), BaseOf(c), if width == None then -1 else width.value,
               if precision == None then -1 else precision.value,
               Flags('0' in fl, c == 'd' || c == 'i', '+' in fl, ' ' in fl, '-' in fl, '#' in fl, c == 'X'))
  }

  lemma IntegerDirective(fl: string, width: Option<nat>, precision: Option<nat>, q: string, c: char, after: string, v: int, rest: seq<Arg>)
    requires AllFlags(fl) && width != Some(0) && IsQualifier(q) && IsInteger(c)
    ensures Formatted("%" + Directive(fl, width, precision, q, [c] + after), [Num(v)] + rest)
      == IntegerText(fl, width, precision, q, c, v) + Formatted(after, rest)
  {
    hide Directive, Formatted, NumberText, Converted;
    DirectivePiece(fl, width, precision, q, [c] + after, [Num(v)] + rest);
    assert ([c] + after)[1..] == after && ([Num(v)] + rest)[1..] == rest;
  }

  // The same, alone.
  lemma IntegerAlone(fl: string, width: Option<nat>, precision: Option<nat>, q: string, c: char, v: int)
    requires AllFlags(fl) && width != Some(0) && IsQualifier(q) && IsInteger(c)
    ensures Formatted("%" + Directive(fl, width, precision, q, [c]), [Num(v)]) == IntegerText(fl, width, precision, q, c, v)
  {
    hide Directive, Formatted, IntegerText;
    IntegerDirective(fl, width, precision, q, c, "", v, []);
    FormattedEnd([]);
    assert [c] + "" == [c] && [Num(v)] + [] == [Num(v)];
    assert IntegerText(fl, width, precision, q, c, v) + "" == IntegerText(fl, width, precision, q, c, v);
  }

  // ---------------------------------------------------------------------------------------------
  // Integers

  lemma PlainDirective(q: string, c: char)
    ensures Directive("", None, None, q, [c]) == q + [c]
  {
  }

  lemma ConvertedMeans(v: int, q: string)
    requires IsQualifier(q)
    ensures Magnitude(Converted(v, Letter(q), false), false) == v % Modulus(q)
    ensures q != "Z" ==>
      var r, m := Converted(v, Letter(q), true), Modulus(q);
      -m <= 2 * r < m && r % m == v % m && (-m <= 2 * v < m ==> r == v)
    ensures q == "Z" ==> Converted(v, Letter(q), true) == v % Modulus(q)
  {
    hide Wrap;
    WrapMeans(v, 0x1_0000);
    WrapMeans(v, 0x1_0000_0000);
    WrapMeans(v, TWO_64);
  }

  lemma WrapMeans(v: int, bits: int)
    requires bits == TWO_64 || bits == 0x1_0000_0000 || bits == 0x1_0000
    ensures Wrap(v, bits, false) == v % bits
    ensures var r := Wrap(v, bits, true);
      -bits <= 2 * r < bits && (if r < 0 then r + bits else r) == v % bits && r % bits == v % bits && (-bits <= 2 * v < bits ==> r == v)
  {
    if bits == TWO_64 {
    } else if bits == 0x1_0000 {
    } else {
    }
  }

  /** %o, %x, %X and %u: the digits are read back as the argument, modulo the size of its type. */
  lemma UnsignedFormat(q: string, c: char, base: nat, v: int)
    requires IsQualifier(q) && ((c == 'o' && base == 8) || (c == 'x' && base == 16) || (c == 'X' && base == 16) || (c == 'u' && base == 10))
    ensures Strtoull(Formatted("%" + (q + [c]), [Num(v)]), base).value == v % Modulus(q)
    ensures Formatted("%" + (q + [c]), [Num(v)]) == Digits(v % Modulus(q), base, c == 'X')
  {
    hide Formatted, Directive, NumberText, Strtoull, Digits, Converted, Modulus, Magnitude;
    PlainDirective(q, c);
    IntegerAlone("", None, None, q, c, v);
    ConvertedMeans(v, q);
    var num, f := Converted(v, Letter(q), false), PLAIN.(large := c == 'X');
    UnsignedRoundTrip(num, base, c == 'X', "");
    PlainText(num, base, f);
    var s := NumberText(num, base, -1, -1, f);
    assert s + "" == s;
    assert "" + "" + Digits(Magnitude(num, false), base, f.large) == Digits(Magnitude(num, false), base, f.large);
  }

  /** %d and %i: what is read back is the value of the type that differs from the argument by a multiple of the size
      of the type; the argument itself, when it is one. Only %Zd takes it without sign. */
  lemma SignedFormat(q: string, c: char, v: int)
    requires IsQualifier(q) && (c == 'd' || c == 'i')
    ensures var r, m := Strtoll(Formatted("%" + (q + [c]), [Num(v)]), 10), Modulus(q);
      && (q != "Z" ==> -m <= 2 * r < m && r % m == v % m)
      && (q != "Z" && -m <= 2 * v < m ==> r == v)
      && (q == "Z" ==> r == v % m)
  {
    hide Formatted, Directive, NumberText, Strtoll, Digits, Converted, Modulus;
    PlainDirective(q, c);
    IntegerAlone("", None, None, q, c, v);
    ConvertedMeans(v, q);
    var num := Converted(v, Letter(q), true);
    SignedRoundTrip(num, 10, false, "");
    var s := NumberText(num, 10, -1, -1, PLAIN.(sign := true));
    assert s + "" == s;
  }

  /** It starts with a minus sign exactly when it is negative. */
  lemma MinusFormat(q: string, c: char, v: int)
    requires IsQualifier(q) && (c == 'd' || c == 'i')
    ensures var text := Formatted("%" + (q + [c]), [Num(v)]); text != [] && (text[0] == '-' <==> Strtoll(text, 10) < 0)
  {
    hide Formatted, Directive, NumberText, Strtoll, Digits, Converted, Modulus, Magnitude;
    PlainDirective(q, c);
    IntegerAlone("", None, None, q, c, v);
    var num := Converted(v, Letter(q), true);
    SignedRoundTrip(num, 10, false, "");
    var s := NumberText(num, 10, -1, -1, PLAIN.(sign := true));
    assert s + "" == s;
    PlainText(num, 10, PLAIN.(sign := true));
    DigitsStart(Magnitude(num, true), 10, false);
  }

  // ---------------------------------------------------------------------------------------------
  // Flags, width and precision

  lemma FlagsDirective(fl: string, q: string, c: char)
    ensures Directive(fl, None, None, q, [c]) == fl + (q + [c])
  {
  }

  /** The flags + and space put a sign before numbers that have none, # a prefix before octal and hexadecimal ones;
      other flags make no difference without a width. */
  lemma FlagsFormat(fl: string, q: string, c: char, v: int)
    requires AllFlags(fl) && IsQualifier(q) && IsInteger(c)
    ensures var plain, text := Formatted("%" + (q + [c]), [Num(v)]), Formatted("%" + (fl + (q + [c])), [Num(v)]);
      plain != [] && text
        == if c == 'd' || c == 'i' then
             (if plain[0] == '-' then "" else if '+' in fl then "+" else if ' ' in fl then " " else "") + plain
           else (if '#' !in fl then "" else if c == 'x' then "0x" else if c == 'X' then "0X" else if c == 'o' then "0" else "") + plain
  {
    hide Formatted, Directive, NumberText, Digits, Converted, Magnitude;
    var signed := c == 'd' || c == 'i';
    var num, base := Converted(v, Letter(q), signed), BaseOf(c);
    PlainDirective(q, c);
    FlagsDirective(fl, q, c);
    IntegerAlone("", None, None, q, c, v);
    IntegerAlone(fl, None, None, q, c, v);
    var f := Flags('0' in fl, signed, '+' in fl, ' ' in fl, '-' in fl, '#' in fl, c == 'X');
    var g := Flags(false, signed, false, false, false, false, c == 'X');
    PlainText(num, base, f);
    PlainText(num, base, g);
    var digits := Digits(Magnitude(num, signed), base, c == 'X');
    DigitsStart(Magnitude(num, signed), base, c == 'X');
    SignParts(SignOf(num, g), Prefix(base, g), digits);
    SignParts(SignOf(num, f), Prefix(base, f), digits);
  }

  lemma SignParts(sign: string, prefix: string, digits: string)
    ensures sign == "" ==> sign + prefix + digits == prefix + digits
    ensures prefix == "" ==> sign + prefix + digits == sign + digits
    ensures sign + (prefix + digits) == sign + prefix + digits
    ensures "" + digits == digits
  {
  }

  // A number without padding, and in a field.
  lemma FieldText(num: int, base: int, size: int, precision: int, f: Flags)
    requires -TWO_63 <= num < TWO_63 && 2 <= base <= 36
    ensures var head, body := SignOf(num, f) + Prefix(base, f), Body(num, base, precision, f);
      var core := head + body;
      && NumberText(num, base, -1, precision, f) == core
      && NumberText(num, base, size, precision, f)
           == if f.left then core + Repeat(' ', size - |core|)
              else if f.zeropad then head + Repeat('0', size - |core|) + body
              else Repeat(' ', size - |core|) + core
  {
    hide Body, SignOf, Prefix;
    var head, body := SignOf(num, f) + Prefix(base, f), Body(num, base, precision, f);
    assert Repeat(' ', -1 - |head| - |body|) == "" && Repeat('0', -1 - |head| - |body|) == "";
    assert "" + head + body == head + body == head + "" + body == head + body + "";
    var pad := Repeat(' ', size - |head| - |body|);
    assert pad + head + body == pad + (head + body);
  }

  lemma {:induction false} AllDigits(n: nat, base: nat, large: bool)
    requires 2 <= base <= 16
    ensures forall i :: 0 <= i < |Digits(n, base, large)| ==>
      IsDigit(Digits(n, base, large)[i]) || (if large then 'A' <= Digits(n, base, large)[i] <= 'F' else 'a' <= Digits(n, base, large)[i] <= 'f')
    decreases n
  {
    if n >= base {
      Division(n, base);
      AllDigits(Quot(n, base), base, large);
    }
  }

  predicate IsHead(s: string) {
    s in {"", "-", "+", " ", "0", "0x", "0X"}
  }

  // Sign and prefix, and then nothing but digits.
  predicate Splits(text: string, head: string) {
    head <= text && IsHead(head) && forall i :: |head| <= i < |text| ==> IsXDigit(text[i])
  }

  lemma HeadText(num: int, f: Flags, base: int)
    requires f.sign ==> base == 10
    ensures IsHead(SignOf(num, f) + Prefix(base, f))
  {
    assert SignOf(num, f) + "" == SignOf(num, f) && "" + Prefix(base, f) == Prefix(base, f);
  }

  lemma HeadSplits(num: int, base: int, precision: int, f: Flags)
    requires -TWO_63 <= num < TWO_63 && 2 <= base <= 16 && (f.sign ==> base == 10)
    ensures var head, body := SignOf(num, f) + Prefix(base, f), Body(num, base, precision, f);
      Splits(head + body, head) && (head + body)[|head|..] == body
  {
    hide Digits, Magnitude, SignOf, Prefix, IsHead;
    HeadText(num, f, base);
    AllDigits(Magnitude(num, f.sign), base, f.large);
    var head, body := SignOf(num, f) + Prefix(base, f), Body(num, base, precision, f);
    forall i | |head| <= i < |head + body| ensures IsXDigit((head + body)[i]) {
      assert (head + body)[i] == body[i - |head|];
    }
  }

  // The text with so many digits at least, from the text without precision.
  lemma PrecisionText(num: int, base: int, precision: nat, f: Flags)
    requires -TWO_63 <= num < TWO_63 && 2 <= base <= 16
    ensures var head, digits := SignOf(num, f) + Prefix(base, f), Body(num, base, -1, f);
      NumberText(num, base, -1, precision, f) == head + Repeat('0', precision - |digits|) + digits
  {
    hide *;
    FieldText(num, base, -1, precision, f);
    MoreDigits(num, base, precision, f);
    var head, digits := SignOf(num, f) + Prefix(base, f), Body(num, base, -1, f);
    Associative(head, Repeat('0', precision - |digits|), digits);
  }

  lemma MoreDigits(num: int, base: int, precision: nat, f: Flags)
    requires -TWO_63 <= num < TWO_63 && 2 <= base <= 16
    ensures var digits := Body(num, base, -1, f); Body(num, base, precision, f) == Repeat('0', precision - |digits|) + digits
  {
    hide Digits, Magnitude, Repeat;
    PlainBody(num, base, f);
  }

  lemma Associative(a: string, b: string, c: string)
    ensures a + (b + c) == a + b + c
  {
  }

  // How a field of width w is filled.
  function InField(core: string, head: string, fl: string, w: int): string
    requires |head| <= |core|
  {
    if '-' in fl then core + Repeat(' ', w - |core|)
    else if '0' in fl then head + Repeat('0', w - |core|) + core[|head|..]
    else Repeat(' ', w - |core|) + core
  }

  /** A width fills the field with spaces in front, or behind with the flag -, or with zeros after sign and prefix
      with the flag 0 alone; it cuts nothing. */
  lemma FieldFormat(fl: string, w: nat, precision: Option<nat>, q: string, c: char, v: int) returns (head: string)
    requires AllFlags(fl) && w > 0 && IsQualifier(q) && IsInteger(c)
    ensures var core, text := Formatted("%" + Directive(fl, None, precision, q, [c]), [Num(v)]),
                              Formatted("%" + Directive(fl, Some(w), precision, q, [c]), [Num(v)]);
      Splits(core, head) && text == InField(core, head, fl, w) && |text| == Max(w, |core|)
  {
    hide Formatted, Directive, NumberText, Converted, Magnitude, SignOf, Prefix, Body, Splits;
    IntegerAlone(fl, None, precision, q, c, v);
    IntegerAlone(fl, Some(w), precision, q, c, v);
    var signed := c == 'd' || c == 'i';
    var num, base, p := Converted(v, Letter(q), signed), BaseOf(c), if precision == None then -1 else precision.value;
    var f := Flags('0' in fl, signed, '+' in fl, ' ' in fl, '-' in fl, '#' in fl, c == 'X');
    FieldText(num, base, w, p, f);
    head := SignOf(num, f) + Prefix(base, f);
    HeadSplits(num, base, p, f);
  }

  /** A precision asks for so many digits, which are filled up with zeros. */
  lemma PrecisionFormat(fl: string, p: nat, q: string, c: char, v: int) returns (head: string)
    requires AllFlags(fl) && IsQualifier(q) && IsInteger(c)
    ensures var plain, text := Formatted("%" + Directive(fl, None, None, q, [c]), [Num(v)]),
                               Formatted("%" + Directive(fl, None, Some(p), q, [c]), [Num(v)]);
      Splits(plain, head) && text == head + Repeat('0', p - (|plain| - |head|)) + plain[|head|..]
  {
    hide Formatted, Directive, NumberText, Converted, Magnitude, SignOf, Prefix, Body, Splits, Repeat;
    IntegerAlone(fl, None, None, q, c, v);
    IntegerAlone(fl, None, Some(p), q, c, v);
    var signed := c == 'd' || c == 'i';
    var num, base := Converted(v, Letter(q), signed), BaseOf(c);
    var f := Flags('0' in fl, signed, '+' in fl, ' ' in fl, '-' in fl, '#' in fl, c == 'X');
    FieldText(num, base, -1, -1, f);
    PrecisionText(num, base, p, f);
    head := SignOf(num, f) + Prefix(base, f);
    HeadSplits(num, base, -1, f);
  }

  lemma {:induction false} ZerosRead(k: nat, n: nat, base: nat, large: bool, before: string)
    requires 2 <= base <= 16 && n < TWO_64
    ensures var s := before + Repeat('0', k) + Digits(n, base, large); ReadDigits(s, base, |before|, 0) == Read(n, |s|)
    decreases k
  {
    hide Digits;
    var s := before + Repeat('0', k) + Digits(n, base, large);
    if k == 0 {
      assert s == before + Digits(n, base, large) + "";
      DigitsRead(n, base, large, before, "");
    } else {
      ZerosInFront(k);
      ReadOne(s, base, |before|, 0, 0, large, 0);
      assert s == before + ['0'] + Repeat('0', k - 1) + Digits(n, base, large);
      ZerosRead(k - 1, n, base, large, before + ['0']);
    }
  }

  lemma {:induction false} ZerosInFront(k: nat)
    requires k > 0
    ensures Repeat('0', k) == ['0'] + Repeat('0', k - 1)
    decreases k
  {
    if k > 1 {
      ZerosInFront(k - 1);
    }
  }

  lemma ZerosBack(k: nat, n: nat, base: nat, large: bool)
    requires 2 <= base <= 16 && n < TWO_64
    ensures Strtoull(Repeat('0', k) + Digits(n, base, large), base).value == n
    ensures (Repeat('0', k) + Digits(n, base, large))[0] != '-'
  {
    hide Digits;
    ZerosRead(k, n, base, large, "");
    assert "" + Repeat('0', k) + Digits(n, base, large) == Repeat('0', k) + Digits(n, base, large);
    DigitsStart(n, base, large);
  }

  /** Zeros do not change a number: what %0d and the like print, in any width and with any precision, is read back like
      what %d prints. */
  lemma ZerosFormat(w: nat, precision: Option<nat>, q: string, c: char, v: int)
    requires w > 0 && IsQualifier(q) && IsInteger(c)
    ensures var plain, text := Formatted("%" + (q + [c]), [Num(v)]), Formatted("%" + Directive("0", Some(w), precision, q, [c]), [Num(v)]);
      if c == 'd' || c == 'i' then Strtoll(text, 10) == Strtoll(plain, 10)
      else Strtoull(text, BaseOf(c)).value == Strtoull(plain, BaseOf(c)).value
  {
    hide Formatted, Directive, NumberText, Converted, Magnitude, Strtoull, Strtoll;
    PlainDirective(q, c);
    IntegerAlone("", None, None, q, c, v);
    IntegerAlone("0", Some(w), precision, q, c, v);
    var signed, p := c == 'd' || c == 'i', if precision == None then -1 else precision.value;
    var num, base := Converted(v, Letter(q), signed), BaseOf(c);
    ZerosValue(num, base, w, p, PLAIN.(zeropad := true, sign := signed, large := c == 'X'));
    var plain := NumberText(num, base, -1, -1, PLAIN.(sign := signed, large := c == 'X'));
    assert plain + "" == plain;
    if signed {
      SignedRoundTrip(num, base, false, "");
    } else {
      UnsignedRoundTrip(num, base, c == 'X', "");
    }
  }

  lemma ZerosValue(num: int, base: int, w: int, p: int, f: Flags)
    requires -TWO_63 <= num < TWO_63 && 2 <= base <= 16 && f.zeropad && !f.left && !f.special && !f.plus && !f.space
    ensures f.sign && base == 10 ==> Strtoll(NumberText(num, base, w, p, f), base) == num
    ensures !f.sign ==> Strtoull(NumberText(num, base, w, p, f), base).value == Magnitude(num, false)
  {
    hide NumberText, Digits, Strtoull, Repeat;
    var n := Magnitude(num, f.sign);
    MagnitudeBound(num, f.sign);
    var k := ZerosText(num, base, w, p, f);
    ZerosBack(k, n, base, f.large);
    var digits := Repeat('0', k) + Digits(n, base, f.large);
    if f.sign && base == 10 {
      var sign := SignOf(num, f);
      assert sign + "" == sign;
      BehindSign(sign, digits);
    } else if !f.sign {
      assert "" + "" + digits == digits;
    }
  }

  lemma MagnitudeBound(num: int, sign: bool)
    requires -TWO_63 <= num < TWO_63
    ensures Magnitude(num, sign) < TWO_64
  {
  }

  lemma BehindSign(sign: string, digits: string)
    requires sign in {"", "-"} && digits != [] && digits[0] != '-'
    ensures sign == "" ==> sign + digits == digits && Strtoll(sign + digits, 10) == ToSigned(Strtoull(digits, 10).value % TWO_64)
    ensures sign == "-" ==> Strtoll(sign + digits, 10) == ToSigned((TWO_64 - Strtoull(digits, 10).value % TWO_64) % TWO_64)
  {
    hide Strtoull;
    assert sign == "-" ==> (sign + digits)[1..] == digits;
    assert sign == "" ==> sign + digits == digits;
  }

  // With the flag 0 alone the digits are filled up with zeros.
  lemma ZerosText(num: int, base: int, w: int, precision: int, f: Flags) returns (k: nat)
    requires -TWO_63 <= num < TWO_63 && 2 <= base <= 16 && f.zeropad && !f.left && !f.special
    ensures NumberText(num, base, w, precision, f)
      == SignOf(num, f) + "" + (Repeat('0', k) + Digits(Magnitude(num, f.sign), base, f.large))
  {
    hide Digits, Magnitude, SignOf;
    FieldText(num, base, w, precision, f);
    var digits, head, body := Digits(Magnitude(num, f.sign), base, f.large), SignOf(num, f) + "", Body(num, base, precision, f);
    var a, b := Max(w - |head + body|, 0), Max(precision - |digits|, 0);
    k := a + b;
    RepeatLength('0', w - |head + body|, a);
    RepeatLength('0', precision - |digits|, b);
    assert Repeat('0', a) + Repeat('0', b) == Repeat('0', k);
    assert head + Repeat('0', a) + (Repeat('0', b) + digits) == head + (Repeat('0', a) + Repeat('0', b) + digits);
  }

  // ---------------------------------------------------------------------------------------------
  // Width and precision as arguments

  lemma StarWidth(w: int, c: char, args: seq<Arg>)
    requires w != 0 && IsInteger(c) && args != [] && args[0] == Num(w)
    ensures ReadSpec("*" + [c], args)
      == Spec(PLAIN.(left := w < 0), if w < 0 then -w else w, -1, ' ', [c], args[1..])
  {
    var fmt := "*" + [c];
    assert fmt[1..] == [c];
    FlagsRead("", fmt, PLAIN);
    assert "" + fmt == fmt;
  }

  /** A star takes the width from the arguments; a negative one stands for the flag -. */
  lemma StarFormat(w: int, c: char, v: int)
    requires w != 0 && IsInteger(c)
    ensures Formatted("%*" + [c], [Num(w), Num(v)])
      == Formatted("%" + Directive(if w < 0 then "-" else "", Some(if w < 0 then -w else w), None, "", [c]), [Num(v)])
  {
    hide ReadSpec, NumberText, Converted, Directive, Formatted;
    var args, fl := [Num(w), Num(v)], if w < 0 then "-" else "";
    assert ("%*" + [c])[1..] == "*" + [c] && args[1..] == [Num(v)];
    StarWidth(w, c, args);
    FormattedSpec("%*" + [c], args);
    IntegerAlone(fl, Some(if w < 0 then -w else w), None, "", c, v);
    FormattedEnd([]);
    var text := IntegerText(fl, Some(if w < 0 then -w else w), None, "", c, v);
    assert text + "" == text;
  }

  lemma StarPrecision(p: int, c: char, args: seq<Arg>)
    requires IsInteger(c) && args != [] && args[0] == Num(p)
    ensures ReadSpec(".*" + [c], args) == Spec(PLAIN, -1, Max(p, 0), ' ', [c], args[1..])
  {
    var fmt := ".*" + [c];
    assert fmt[1..] == "*" + [c] && ("*" + [c])[1..] == [c];
    FlagsRead("", fmt, PLAIN);
    assert "" + fmt == fmt;
  }

  /** So does a star after the dot; a negative precision counts as 0. */
  lemma DotStarFormat(p: int, c: char, v: int)
    requires IsInteger(c)
    ensures Formatted("%.*" + [c], [Num(p), Num(v)])
      == Formatted("%" + Directive("", None, Some(if p < 0 then 0 else p), "", [c]), [Num(v)])
  {
    hide ReadSpec, NumberText, Converted, Directive, Formatted;
    var args := [Num(p), Num(v)];
    assert ("%.*" + [c])[1..] == ".*" + [c] && args[1..] == [Num(v)];
    StarPrecision(p, c, args);
    FormattedSpec("%.*" + [c], args);
    IntegerAlone("", None, Some(if p < 0 then 0 else p), "", c, v);
    FormattedEnd([]);
    var text := IntegerText("", None, Some(if p < 0 then 0 else p), "", c, v);
    assert text + "" == text;
  }

  // ---------------------------------------------------------------------------------------------
  // The other conversions

  /** %c prints the character of the low byte, in a field of the width. */
  lemma CharFormat(fl: string, width: Option<nat>, n: int)
    requires AllFlags(fl) && width != Some(0)
    ensures var pad := Repeat(' ', if width == None then 0 else width.value - 1);
      Formatted("%" + Directive(fl, width, None, "", "c"), [Num(n)])
        == if '-' in fl then [(n % 256) as char] + pad else pad + [(n % 256) as char]
  {
    hide Directive, Formatted;
    DirectivePiece(fl, width, None, "", "c", [Num(n)]);
    FormattedEnd([]);
    var w := if width == None then -1 else width.value;
    var text := CharText(ByteOf(n), w, '-' in fl);
    assert "c"[1..] == "" && [Num(n)][1..] == [] && text + "" == text;
    assert width == None ==> Repeat(' ', w - 1) == "" == Repeat(' ', 0);
  }

  /** %s prints the string, as many characters of it as the precision allows, in a field of the width; a null pointer
      stands for a string of its own. */
  lemma StringFormat(fl: string, width: Option<nat>, precision: Option<nat>, s: Option<string>)
    requires AllFlags(fl) && width != Some(0)
    ensures var all := if s == None then "<NULL>" else s.value;
      var shown := if precision.Some? && precision.value < |all| then all[..precision.value] else all;
      var pad := Repeat(' ', if width == None then 0 else width.value - |shown|);
      Formatted("%" + Directive(fl, width, precision, "", "s"), [Text(s)]) == if '-' in fl then shown + pad else pad + shown
  {
    hide Directive, Formatted, StringText, Repeat;
    DirectivePiece(fl, width, precision, "", "s", [Text(s)]);
    FormattedEnd([]);
    var w, p := if width == None then -1 else width.value, if precision == None then -1 else precision.value;
    var text := StringText(s, w, p, '-' in fl);
    assert "s"[1..] == "" && [Text(s)][1..] == [] && text + "" == text;
    var all := if s == None then "<NULL>" else s.value;
    var shown := if precision.Some? && precision.value < |all| then all[..precision.value] else all;
    StringTextShown(s, w, p, '-' in fl, shown);
    if width == None {
      RepeatLength(' ', w - |shown|, 0);
      RepeatLength(' ', 0, 0);
    }
  }

  lemma StringTextShown(s: Option<string>, w: int, p: int, left: bool, shown: string)
    requires var all := if s == None then "<NULL>" else s.value; shown == if 0 <= p < |all| then all[..p] else all
    ensures StringText(s, w, p, left) == if left then shown + Repeat(' ', w - |shown|) else Repeat(' ', w - |shown|) + shown
  {
  }

  /** %p prints eight hexadecimal digits, which are read back as the address. */
  lemma PointerFormat(v: int)
    ensures var text := Formatted("%p", [Num(v)]); |text| == 8 && Strtoull(text, 16).value == v % 0x1_0000_0000
  {
    hide Formatted, NumberText, Digits, Strtoull;
    var num := Wrap(v, 0x1_0000_0000, false);
    DirectivePiece("", None, None, "", "p", [Num(v)]);
    assert Directive("", None, None, "", "p") == "p" && "%" + "p" == "%p";
    FormattedEnd([]);
    var f := PLAIN.(zeropad := true);
    var text := NumberText(num, 16, 8, -1, f);
    assert text + "" == text;
    var k := ZerosText(num, 16, 8, -1, f);
    ZerosBack(k, num, 16, false);
    assert "" + "" + (Repeat('0', k) + Digits(num, 16, false)) == Repeat('0', k) + Digits(num, 16, false);
    assert "p"[1..] == "" && [Num(v)][1..] == [];
    assert Power(16, 8) == 0x1_0000_0000 by {
      assert Power(16, 2) == 0x100;
      assert Power(16, 4) == 0x1_0000;
      assert Power(16, 6) == 0x100_0000;
    }
    NumberWidth(num, 16, 8, -1, f);
    FewDigits(num, 8);
  }

  function Power(base: nat, n: nat): nat {
    if n == 0 then 1 else base * Power(base, n - 1)
  }

  lemma {:induction false} FewDigits(n: nat, k: nat)
    requires k > 0 && n < Power(16, k)
    ensures |Digits(n, 16, false)| <= k
    decreases k
  {
    if n >= 16 {
      Division(n, 16);
      assert k > 1;
      FewDigits(Quot(n, 16), k - 1);
    }
  }

  /** Two percent signs print one, and so does one alone at the end; an unknown conversion is printed as it stands. */
  lemma OtherFormats(c: char, args: seq<Arg>)
    requires Starts([c]) && !IsInteger(c) && c !in {'c', 's', 'p', 'n', '%'}
    ensures Formatted("%%", args) == "%" && Formatted("%", args) == "%" && Formatted(['%', c], args) == ['%', c]
  {
    hide Formatted;
    DirectivePiece("", None, None, "", "%", args);
    DirectivePiece("", None, None, "", [c], args);
    assert Directive("", None, None, "", "%") == "%" && Directive("", None, None, "", [c]) == [c];
    assert "%"[1..] == "" && [c][1..] == "";
    assert "%" + "%" == "%%" && "%" + [c] == ['%', c];
    FormattedEnd(args);
    FormattedSpec("%", args);
    assert "%" + "" == "%" && ['%', c] + "" == ['%', c];
  }

  /** Everything else is printed as it stands, and a format goes on behind a directive. */
  lemma {:induction false} FormatGoesOn(before: string, fmt: string, args: seq<Arg>)
    requires '%' !in before
    ensures Formatted(before + fmt, args) == before + Formatted(fmt, args)
    decreases |before|
  {
    hide Formatted;
    if before == [] {
      assert before + fmt == fmt && before + Formatted(fmt, args) == Formatted(fmt, args);
    } else {
      assert (before + fmt)[1..] == before[1..] + fmt;
      FormattedChar(before + fmt, args);
      FormatGoesOn(before[1..], fmt, args);
      assert before == [before[0]] + before[1..];
    }
  }
}
