/** Numbers in text: the digits that `number` of `kernel/util/printf.c` writes, and how `simple_strtoull` and
    `simple_strtoll` read them back. */
module Numerals {
  const TWO_64 := 0x1_0000_0000_0000_0000
  const TWO_63 := 0x8000_0000_0000_0000

  // ---------------------------------------------------------------------------------------------
  // Characters

  // small_digits and large_digits
  function DigitChar(d: nat, large: bool): char
    requires d < 36
  {
    if d < 10 then ('0' as int + d) as char
    else if large then ('A' as int + d - 10) as char
    else ('a' as int + d - 10) as char
  }

  predicate IsDigit(c: char) {
    '0' <= c <= '9'
  }

  predicate IsXDigit(c: char) {
    IsDigit(c) || 'a' <= c <= 'f' || 'A' <= c <= 'F'
  }

  function DigitValue(c: char): nat
    requires IsXDigit(c)
  {
    if IsDigit(c) then c as int - '0' as int
    else (if 'a' <= c then c as int - 'a' as int else c as int - 'A' as int) + 10
  }

  // The character is a digit of the base.
  predicate Reads(c: char, base: nat) {
    IsXDigit(c) && DigitValue(c) < base
  }

  lemma DigitBack(d: nat, large: bool)
    requires d < 16
    ensures IsXDigit(DigitChar(d, large)) && DigitValue(DigitChar(d, large)) == d
    ensures DigitChar(d, large) != 'x'
    ensures DigitChar(d, large) == '0' <==> d == 0
    ensures DigitChar(d, large) != '-'
  {
  }

  // ---------------------------------------------------------------------------------------------
  // Writing and reading digits

  function Quot(n: nat, base: nat): nat
    requires base > 0
  {
    n / base
  }

  function Rem(n: nat, base: nat): nat
    requires base > 0
  {
    n % base
  }

  lemma QuotRem(n: nat, base: nat)
    requires base >= 2
    ensures n == Quot(n, base) * base + Rem(n, base) && Rem(n, base) < base
  {
  }

  lemma Product(q: nat, base: nat)
    requires base >= 2
    ensures q * base >= 2 * q && (q >= 1 ==> q * base >= base) && (q == 0 ==> q * base == 0)
  {
  }

  lemma Division(n: nat, base: nat)
    requires base >= 2
    ensures n == Quot(n, base) * base + Rem(n, base) && Rem(n, base) < base
    ensures n > 0 ==> Quot(n, base) < n
    ensures Quot(n, base) == 0 <==> n < base
    ensures n < base ==> Rem(n, base) == n
  {
    hide Quot, Rem;
    QuotRem(n, base);
    Product(Quot(n, base), base);
  }

  // The digits of n, the most significant first.
  function Digits(n: nat, base: nat, large: bool): (s: string)
    requires 2 <= base <= 36
    ensures s != []
    decreases n
  {
    if n < base then [DigitChar(n, large)]
    else
      Division(n, base);
      Digits(Quot(n, base), base, large) + [DigitChar(Rem(n, base), large)]
  }

  datatype Read = Read(value: nat, length: nat)

  // One more digit, in 64-bit arithmetic.
  function Accumulate(result: nat, base: nat, digit: nat): nat {
    (result * base + digit) % TWO_64
  }

  // The loop of simple_strtoull from position at on, in 64-bit arithmetic.
  function ReadDigits(s: string, base: nat, at: nat, result: nat): Read
    requires at <= |s|
    decreases |s| - at
  {
    if at < |s| && Reads(s[at], base) then ReadDigits(s, base, at + 1, Accumulate(result, base, DigitValue(s[at])))
    else Read(result, at)
  }

  // simple_strtoull; base 0 means that the prefix of the text decides.
  function Strtoull(s: string, base: nat): Read {
    if base != 0 then ReadDigits(s, base, 0, 0)
    else if s != [] && s[0] == '0' then
      if |s| > 2 && s[1] == 'x' && IsXDigit(s[2]) then ReadDigits(s, 16, 2, 0)
      else ReadDigits(s, 8, 1, 0)
    else ReadDigits(s, 10, 0, 0)
  }

  // An unsigned 64-bit number as a signed one.
  function ToSigned(n: nat): int
    requires n < TWO_64
  {
    if n < TWO_63 then n else n - TWO_64
  }

  // simple_strtoll; the sign is applied in unsigned arithmetic.
  function Strtoll(s: string, base: nat): int {
    if s != [] && s[0] == '-' then ToSigned((TWO_64 - Strtoull(s[1..], base).value % TWO_64) % TWO_64)
    else ToSigned(Strtoull(s, base).value % TWO_64)
  }

  lemma ReadOne(s: string, base: nat, at: nat, result: nat, d: nat, large: bool, result': nat)
    requires at < |s| && 2 <= base <= 16 && d < base && s[at] == DigitChar(d, large) && result' == result * base + d < TWO_64
    ensures ReadDigits(s, base, at, result) == ReadDigits(s, base, at + 1, result')
  {
    DigitBack(d, large);
    AccumulateIs(result, base, d, result');
    hide Accumulate;
  }

  lemma AccumulateIs(result: nat, base: nat, d: nat, result': nat)
    requires result' == result * base + d < TWO_64
    ensures Accumulate(result, base, d) == result'
  {
  }

  // Reading the digits of n, after those that gave 0.
  lemma {:induction false} DigitsRead(n: nat, base: nat, large: bool, before: string, after: string)
    requires 2 <= base <= 16 && n < TWO_64
    ensures ReadDigits(before + Digits(n, base, large) + after, base, |before|, 0)
      == ReadDigits(before + Digits(n, base, large) + after, base, |before| + |Digits(n, base, large)|, n)
    decreases n
  {
    hide ReadDigits, DigitChar, Quot, Rem;
    var s := before + Digits(n, base, large) + after;
    if n < base {
      assert s[|before|] == DigitChar(n, large);
      ReadOne(s, base, |before|, 0, n, large, n);
    } else {
      Division(n, base);
      var q, r, h := Quot(n, base), Rem(n, base), Digits(Quot(n, base), base, large);
      var c := DigitChar(r, large);
      DigitsRead(q, base, large, before, [c] + after);
      assert s == before + h + ([c] + after);
      assert s[|before| + |h|] == c;
      ReadOne(s, base, |before| + |h|, q, r, large, n);
    }
  }

  lemma DigitsStart(n: nat, base: nat, large: bool)
    requires 2 <= base <= 16
    ensures IsXDigit(Digits(n, base, large)[0]) && Digits(n, base, large)[0] != '-' && Digits(n, base, large)[0] != 'x'
    ensures n > 0 ==> Digits(n, base, large)[0] != '0'
    decreases n
  {
    if n < base {
      DigitBack(n, large);
    } else {
      Division(n, base);
      DigitsStart(Quot(n, base), base, large);
      assert Digits(n, base, large)[0] == Digits(Quot(n, base), base, large)[0];
    }
  }

  // What follows the number does not continue it.
  predicate Stops(after: string, base: nat) {
    after == [] || !Reads(after[0], base)
  }

  /** simple_strtoull reads back what is written, in the base it was written in. */
  lemma StrtoullDigits(n: nat, base: nat, large: bool, after: string)
    requires 2 <= base <= 16 && n < TWO_64 && Stops(after, base)
    ensures Strtoull(Digits(n, base, large) + after, base) == Read(n, |Digits(n, base, large)|)
  {
    DigitsRead(n, base, large, "", after);
    assert "" + Digits(n, base, large) + after == Digits(n, base, large) + after;
  }

  /** With base 0 the prefixes 0x and 0 say which base it was; without one it is decimal. */
  lemma StrtoullPrefixed(n: nat, large: bool, after: string)
    requires n < TWO_64
    ensures Stops(after, 16) ==> Strtoull("0x" + Digits(n, 16, large) + after, 0) == Read(n, 2 + |Digits(n, 16, large)|)
    ensures Stops(after, 8) ==> Strtoull("0" + Digits(n, 8, large) + after, 0) == Read(n, 1 + |Digits(n, 8, large)|)
    ensures Stops(after, 10) && n > 0 ==> Strtoull(Digits(n, 10, large) + after, 0) == Read(n, |Digits(n, 10, large)|)
  {
    hide ReadDigits, Digits, Reads;
    DigitsRead(n, 16, large, "0x", after);
    DigitsStart(n, 16, large);
    var s := "0x" + Digits(n, 16, large) + after;
    assert s[2] == Digits(n, 16, large)[0];
    StopsReading(s, 16, 2 + |Digits(n, 16, large)|, n, after);
    DigitsRead(n, 8, large, "0", after);
    DigitsStart(n, 8, large);
    var t := "0" + Digits(n, 8, large) + after;
    assert t[1] == Digits(n, 8, large)[0];
    StopsReading(t, 8, 1 + |Digits(n, 8, large)|, n, after);
    DigitsRead(n, 10, large, "", after);
    DigitsStart(n, 10, large);
    var u := "" + Digits(n, 10, large) + after;
    assert u == Digits(n, 10, large) + after;
    StopsReading(u, 10, |Digits(n, 10, large)|, n, after);
  }

  lemma StopsReading(s: string, base: nat, at: nat, result: nat, after: string)
    requires at <= |s| && s[at..] == after
    ensures Stops(after, base) ==> ReadDigits(s, base, at, result) == Read(result, at)
  {
    if at < |s| {
      assert s[at] == after[0];
    }
  }

  /** The upper-case prefix 0X, which number writes for %#X, is not understood: only its zero is read. */
  lemma UpperPrefixLost(n: nat, after: string)
    ensures Strtoull("0X" + Digits(n, 16, true) + after, 0) == Read(0, 1)
  {
    var s := "0X" + Digits(n, 16, true) + after;
    assert s[0] == '0' && s[1] == 'X';
  }

  /** simple_strtoll reads back every signed 64-bit number, the least included. */
  lemma StrtollDigits(v: int, base: nat, large: bool, after: string)
    requires 2 <= base <= 16 && -TWO_63 <= v < TWO_63 && Stops(after, base)
    ensures Strtoll((if v < 0 then "-" + Digits(-v, base, large) else Digits(v, base, large)) + after, base) == v
  {
    hide Strtoull, Digits;
    if v < 0 {
      var s := "-" + Digits(-v, base, large) + after;
      StrtoullDigits(-v, base, large, after);
      assert s[1..] == Digits(-v, base, large) + after;
    } else {
      StrtoullDigits(v, base, large, after);
      DigitsStart(v, base, large);
      assert (Digits(v, base, large) + after)[0] == Digits(v, base, large)[0];
    }
  }

  // ---------------------------------------------------------------------------------------------
  // What a text of digits is worth

  /** The digits are the characters of the two tables, and are worth their places in them. */
  lemma DigitTables(d: nat)
    requires d < 16
    ensures DigitChar(d, false) == "0123456789abcdef"[d] && DigitChar(d, true) == "0123456789ABCDEF"[d]
    ensures DigitValue("0123456789abcdef"[d]) == d == DigitValue("0123456789ABCDEF"[d])
  {
  }

  /** A character is read in a base just when it is among the first digits of a table. */
  lemma ReadsTables(c: char, base: nat)
    requires base <= 16
    ensures Reads(c, base) <==> c in "0123456789abcdef"[..base] || c in "0123456789ABCDEF"[..base]
  {
    if Reads(c, base) {
      var d := DigitValue(c);
      assert c == "0123456789abcdef"[..base][d] || c == "0123456789ABCDEF"[..base][d];
    }
    forall d | 0 <= d < base ensures Reads("0123456789abcdef"[..base][d], base) && Reads("0123456789ABCDEF"[..base][d], base) {
      DigitTables(d);
    }
  }

  predicate AllRead(s: string, base: nat) {
    forall i :: 0 <= i < |s| ==> Reads(s[i], base)
  }

  lemma {:induction false} ReadOn(s: string, c: char, base: nat, at: nat, result: nat)
    requires at <= |s| && AllRead(s, base) && Reads(c, base)
    ensures ReadDigits(s, base, at, result).length == |s|
    ensures ReadDigits(s + [c], base, at, result)
      == Read(Accumulate(ReadDigits(s, base, at, result).value, base, DigitValue(c)), |s| + 1)
    decreases |s| - at
  {
    hide Accumulate;
    var t := s + [c];
    if at < |s| {
      assert t[at] == s[at];
      ReadOn(s, c, base, at + 1, Accumulate(result, base, DigitValue(s[at])));
    } else {
      assert t[at] == c;
    }
  }

  /** One more digit multiplies by the base and adds what it is worth, in 64-bit arithmetic. */
  lemma OneMoreDigit(s: string, c: char, base: nat)
    requires base > 0 && AllRead(s, base) && Reads(c, base)
    ensures Strtoull("", base) == Read(0, 0) && Strtoull(s, base).length == |s|
    ensures Strtoull(s + [c], base) == Read((Strtoull(s, base).value * base + DigitValue(c)) % 0x1_0000_0000_0000_0000, |s| + 1)
  {
    ReadOn(s, c, base, 0, 0);
  }
}
