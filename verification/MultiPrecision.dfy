/** Numbers as sequences of base-2^16 digits, most significant first, and the 32-bit word arithmetic
    of `kernel/util/math.c`, whose operands are stored in such digits. */
module MultiPrecision {
  type u64 = x: int | 0 <= x < 0x1_0000_0000_0000_0000

  // ---------------------------------------------------------------------------------------------
  // 32-bit unsigned words

  function Wrap(x: int): (r: int)
    ensures 0 <= r < 0x1_0000_0000
  {
    x % 0x1_0000_0000
  }

  function HHalf(x: int): int {
    x / 0x1_0000
  }

  function LHalf(x: int): int {
    x % 0x1_0000
  }

  function Pow2(k: nat): (r: int)
    ensures r >= 1
  {
    if k == 0 then 1 else 2 * Pow2(k - 1)
  }

  function Shl(x: int, k: nat): int {
    Wrap(x * Pow2(k))
  }

  function Shr(x: int, k: nat): int {
    x / Pow2(k)
  }

  // Bitwise or.
  function Or(a: nat, b: nat): nat {
    if a == 0 && b == 0 then 0
    else 2 * Or(a / 2, b / 2) + if a % 2 == 1 || b % 2 == 1 then 1 else 0
  }

  function Combine(a: int, b: int): int
    requires b >= 0
  {
    Or(Wrap(a * 0x1_0000), b)
  }

  // Bitwise or is addition when the operands share no bit position.
  lemma {:induction false} OrDisjoint(c: nat, b: nat, k: nat)
    requires b < Pow2(k)
    ensures c * Pow2(k) >= 0 && Or(c * Pow2(k), b) == c * Pow2(k) + b
    decreases k, c
  {
    if k == 0 {
      OrZero(c);
    } else {
      var p := Pow2(k - 1);
      assert c * Pow2(k) == 2 * (c * p) by { assert Pow2(k) == 2 * p; }
      assert c * p >= 0;
      OrDisjoint(c, b / 2, k - 1);
    }
  }

  lemma {:induction false} OrZero(c: nat)
    ensures Or(c, 0) == c
  {
    if c > 0 {
      OrZero(c / 2);
    }
  }

  lemma Pow2Sixteen()
    ensures Pow2(16) == 0x1_0000
  {
    assert Pow2(4) == 16;
    assert Pow2(8) == 256;
    assert Pow2(12) == 4096;
  }

  lemma CombineIs(a: int, b: int)
    requires 0 <= a < 0x1_0000 && 0 <= b < 0x1_0000
    ensures Combine(a, b) == a * 0x1_0000 + b
    ensures 0 <= a * 0x1_0000 + b < 0x1_0000_0000
  {
    Pow2Sixteen();
    OrDisjoint(a, b, 16);
  }

  // ---------------------------------------------------------------------------------------------
  // Digit sequences

  ghost predicate Digits(s: seq<int>) {
    forall i :: 0 <= i < |s| ==> 0 <= s[i] < 0x1_0000
  }

  function BPow(k: nat): (r: int)
    ensures r >= 1
  {
    if k == 0 then 1 else 0x1_0000 * BPow(k - 1)
  }

  ghost function Val(s: seq<int>): int {
    if s == [] then 0 else s[0] * BPow(|s| - 1) + Val(s[1..])
  }

  lemma {:induction false} ValBound(s: seq<int>)
    requires Digits(s)
    ensures 0 <= Val(s) < BPow(|s|)
  {
    if s != [] {
      ValBound(s[1..]);
      DigitTimes(s[0], BPow(|s| - 1));
    }
  }

  lemma DigitTimes(x: int, p: int)
    requires 0 <= x < 0x1_0000 && p >= 0
    ensures 0 <= x * p && x * p + p <= 0x1_0000 * p
  {
    MulMonotone(x + 1, 0x1_0000, p);
    MulDistribute(x, 1, p);
  }

  lemma MulMonotone(x: int, y: int, p: int)
    requires x <= y && p >= 0
    ensures x * p <= y * p
  {
  }

  lemma MulAssociate(x: int, y: int, z: int)
    ensures x * (y * z) == (x * y) * z
  {
  }

  lemma MulDistribute(x: int, y: int, p: int)
    ensures (x + y) * p == x * p + y * p
    ensures (x - y) * p == x * p - y * p
  {
  }

  lemma {:induction false} ValConcat(a: seq<int>, b: seq<int>)
    ensures Val(a + b) == Val(a) * BPow(|b|) + Val(b)
  {
    if a == [] {
      assert a + b == b;
    } else {
      ValConcat(a[1..], b);
      assert (a + b)[1..] == a[1..] + b;
      BPowSum(|a| - 1, |b|);
      ConcatAlgebra(a[0], BPow(|a| - 1), BPow(|b|), Val(a[1..]));
    }
  }

  lemma ConcatAlgebra(x: int, p: int, q: int, v: int)
    ensures (x * p + v) * q == x * (p * q) + v * q
  {
  }

  lemma {:induction false} BPowSum(a: nat, b: nat)
    ensures BPow(a + b) == BPow(a) * BPow(b)
  {
    if a > 0 {
      BPowSum(a - 1, b);
      MulAssociate(0x1_0000, BPow(a - 1), BPow(b));
    }
  }

  lemma {:induction false} BPowMonotone(a: nat, b: nat)
    requires a <= b
    ensures BPow(a) <= BPow(b)
  {
    if a < b {
      BPowMonotone(a, b - 1);
    }
  }

  lemma ValCons(x: int, s: seq<int>)
    ensures Val([x] + s) == x * BPow(|s|) + Val(s)
    ensures BPow(|s| + 1) == 0x1_0000 * BPow(|s|)
  {
    assert ([x] + s)[1..] == s;
  }

  lemma ValEmpty()
    ensures Val([]) == 0 && BPow(0) == 1
  {
  }

  lemma ValSnoc(s: seq<int>, x: int)
    ensures Val(s + [x]) == Val(s) * 0x1_0000 + x
  {
    ValConcat(s, [x]);
    assert BPow(1) == 0x1_0000;
    assert Val([x]) == x;
  }

  lemma {:induction false} ValZeros(s: seq<int>)
    requires forall i :: 0 <= i < |s| ==> s[i] == 0
    ensures Val(s) == 0
  {
    if s != [] {
      ValZeros(s[1..]);
    }
  }

  // The leading digit decides.
  lemma ValLeading(s: seq<int>)
    requires s != [] && Digits(s)
    ensures s[0] * BPow(|s| - 1) <= Val(s) < (s[0] + 1) * BPow(|s| - 1)
  {
    ValBound(s[1..]);
  }

  lemma ValFour(s: seq<int>)
    requires |s| == 4
    ensures Val(s) == s[0] * 0x1_0000_0000_0000 + s[1] * 0x1_0000_0000 + s[2] * 0x1_0000 + s[3]
  {
    assert Val(s) == s[0] * BPow(3) + Val(s[1..]);
    assert Val(s[1..]) == s[1] * BPow(2) + Val(s[2..]) by { assert s[1..][1..] == s[2..]; }
    assert Val(s[2..]) == s[2] * BPow(1) + Val(s[3..]) by { assert s[2..][1..] == s[3..]; }
    assert Val(s[3..]) == s[3] * BPow(0) + Val(s[4..]) by { assert s[3..][1..] == s[4..]; }
    assert BPow(1) == 0x1_0000 && BPow(2) == 0x1_0000 * 0x1_0000 && BPow(3) == 0x1_0000 * 0x1_0000 * 0x1_0000;
  }
}
