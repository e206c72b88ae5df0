/** 64-bit division on 32-bit words: `__qdivrem` of `kernel/util/math.c`, Knuth's Algorithm D
    (The Art of Computer Programming, volume 2, section 4.3.1), and the entry points on top of it. */
module KnuthDivision {
  import opened MultiPrecision
  import opened Wrappers

  // The n digits p[o], p[o + 1], ...
  ghost function Window(p: array<int>, o: nat, n: nat): (s: seq<int>)
    requires o + n <= p.Length
    reads p
    ensures |s| == n && forall k :: 0 <= k < n ==> s[k] == p[o + k]
  {
    p[o..o + n]
  }

  ghost predicate OnlyWindow(before: seq<int>, after: seq<int>, o: nat, n: nat) {
    && |before| == |after|
    && forall k :: 0 <= k < |before| && (k < o || o + n <= k) ==> after[k] == before[k]
  }

  // ---------------------------------------------------------------------------------------------
  // D3: the quotient digit

  // The largest digit q with q * d <= u.
  ghost predicate BestDigit(q: int, u: int, d: int) {
    0 <= q < 0x1_0000 && q * d <= u && (q == 0x1_0000 - 1 || u < (q + 1) * d)
  }

  lemma EstimateInvariant(q: int, r: int, uj0: int, uj1: int, uj2: int, v1: int, v2: int)
    requires q * v1 + r == uj0 * 0x1_0000 + uj1
    ensures q * (v1 * 0x1_0000 + v2) == uj0 * 0x1_0000_0000 + uj1 * 0x1_0000 - r * 0x1_0000 + v2 * q
  {
    assert q * (v1 * 0x1_0000 + v2) == (q * v1) * 0x1_0000 + v2 * q;
  }

  // q, with remainder r, is a quotient of the leading two digits by v1.
  ghost predicate Splits(q: int, r: int, uj0: int, uj1: int, v1: int) {
    q * v1 + r == uj0 * 0x1_0000 + uj1
  }

  // No digit above q fits u by d.
  ghost predicate NoneAbove(q: int, u: int, d: int) {
    q >= 0xFFFF || u < (q + 1) * d
  }

  // The test against the second divisor digit, which the code evaluates in 32-bit words.
  predicate FailsTest(q: int, r: int, uj2: int, v2: int)
    requires uj2 >= 0
  {
    Wrap(v2 * q) > Combine(r, uj2)
  }

  lemma FailsTestMeans(q: int, r: int, uj0: int, uj1: int, uj2: int, v1: int, v2: int)
    requires Splits(q, r, uj0, uj1, v1)
    requires 0 <= r < 0x1_0000 && 0 <= uj2 < 0x1_0000 && 0 <= v2 < 0x1_0000 && 0 <= q <= 0x1_0000
    ensures FailsTest(q, r, uj2, v2)
       <==> q * (v1 * 0x1_0000 + v2) > uj0 * 0x1_0000_0000 + uj1 * 0x1_0000 + uj2
  {
    EstimateInvariant(q, r, uj0, uj1, uj2, v1, v2);
    CombineIs(r, uj2);
    ProductFits(v2, q);
  }

  // An estimate of B, or one that fails the test, can be lowered without passing over a fitting digit.
  lemma Lower(q: int, r: int, q': int, r': int, uj0: int, uj1: int, uj2: int, v1: int, v2: int, u3: int, d2: int)
    requires q' == q - 1 && r' == r + v1
    requires u3 == uj0 * 0x1_0000_0000 + uj1 * 0x1_0000 + uj2 && d2 == v1 * 0x1_0000 + v2
    requires Splits(q, r, uj0, uj1, v1)
    requires 0 <= r < 0x1_0000 && 0 <= uj2 < 0x1_0000 && 0 <= v2 < 0x1_0000 && 0 <= q <= 0x1_0000
    requires 0 <= uj0 && 0 <= uj1
    requires q == 0x1_0000 || FailsTest(q, r, uj2, v2)
    ensures q' >= 0
    ensures Splits(q', r', uj0, uj1, v1) && NoneAbove(q', u3, d2)
  {
    FailsTestMeans(q, r, uj0, uj1, uj2, v1, v2);
    MulDistribute(q, 1, v1);
  }

  // An estimate that passes the test, or whose remainder has outgrown a digit, fits.
  lemma Fits(q: int, r: int, uj0: int, uj1: int, uj2: int, v1: int, v2: int, u3: int, d2: int)
    requires u3 == uj0 * 0x1_0000_0000 + uj1 * 0x1_0000 + uj2 && d2 == v1 * 0x1_0000 + v2
    requires Splits(q, r, uj0, uj1, v1) && NoneAbove(q, u3, d2)
    requires 0 <= r && 0 <= uj2 < 0x1_0000 && 0 <= v2 < 0x1_0000 && 0 <= q < 0x1_0000
    requires r >= 0x1_0000 || !FailsTest(q, r, uj2, v2)
    ensures BestDigit(q, u3, d2)
  {
    if r < 0x1_0000 {
      FailsTestMeans(q, r, uj0, uj1, uj2, v1, v2);
    } else {
      EstimateInvariant(q, r, uj0, uj1, uj2, v1, v2);
      ProductFits(v2, q);
    }
  }

  // The digit from the leading two digits of the dividend and one of the divisor, corrected by one
  // more digit of each: the largest digit that fits the leading three by two digits.
  method EstimateDigit(uj0: int, uj1: int, uj2: int, v1: int, v2: int) returns (qhat: int)
    requires 0 <= uj0 <= v1 && 0 <= uj1 < 0x1_0000 && 0 <= uj2 < 0x1_0000
    requires 0 < v1 < 0x1_0000 && 0 <= v2 < 0x1_0000
    ensures BestDigit(qhat, uj0 * 0x1_0000_0000 + uj1 * 0x1_0000 + uj2, v1 * 0x1_0000 + v2)
  {
    hide Splits, NoneAbove, FailsTest, BestDigit;
    ghost var u3, d2 := uj0 * 0x1_0000_0000 + uj1 * 0x1_0000 + uj2, v1 * 0x1_0000 + v2;
    var rhat: int;
    var tooBig := false;
    if uj0 == v1 {
      qhat := 0x1_0000;
      rhat := uj1;
      tooBig := true;
      BaseSplits(uj0, uj1, u3, d2);
    } else {
      qhat, rhat := FirstEstimate(uj0, uj1, v1);
      NextDigitTooBig(qhat, rhat, uj0, uj1, uj2, v1, v2);
    }
    while tooBig || FailsTest(qhat, rhat, uj2, v2)
      invariant 0 <= rhat < 0x1_0000
      invariant 0 <= qhat <= 0x1_0000 && (tooBig <==> qhat == 0x1_0000)
      invariant Splits(qhat, rhat, uj0, uj1, v1) && NoneAbove(qhat, u3, d2)
      decreases 0x1_0000 - rhat
    {
      ghost var qhat0, rhat0 := qhat, rhat;
      tooBig := false;
      qhat := qhat - 1;
      rhat := Wrap(rhat + v1);
      Lower(qhat0, rhat0, qhat, rhat, uj0, uj1, uj2, v1, v2, u3, d2);
      if rhat >= 0x1_0000 {
        break;
      }
    }
    Fits(qhat, rhat, uj0, uj1, uj2, v1, v2, u3, d2);
  }

  // The quotient of the leading two digits by one is not too small.
  lemma NextDigitTooBig(q: int, r: int, uj0: int, uj1: int, uj2: int, v1: int, v2: int)
    requires q >= 0 && Splits(q, r, uj0, uj1, v1) && r < v1
    requires 0 <= uj2 < 0x1_0000 && 0 <= v2
    ensures NoneAbove(q, uj0 * 0x1_0000_0000 + uj1 * 0x1_0000 + uj2, v1 * 0x1_0000 + v2)
  {
    MulDistribute(q, 1, v1);
    assert (q + 1) * (v1 * 0x1_0000 + v2) == ((q + 1) * v1) * 0x1_0000 + (q + 1) * v2;
    MulMonotone(0, q + 1, v2);
  }

  lemma BaseSplits(uj0: int, uj1: int, u3: int, d2: int)
    ensures Splits(0x1_0000, uj1, uj0, uj1, uj0) && NoneAbove(0x1_0000, u3, d2)
  {
  }

  method FirstEstimate(uj0: int, uj1: int, v1: int) returns (qhat: int, rhat: int)
    requires 0 <= uj0 < v1 < 0x1_0000 && 0 <= uj1 < 0x1_0000
    ensures 0 <= qhat < 0x1_0000 && 0 <= rhat < v1 && Splits(qhat, rhat, uj0, uj1, v1)
  {
    CombineIs(uj0, uj1);
    var nn := Combine(uj0, uj1);
    qhat := nn / v1;
    rhat := nn % v1;
    DivisionBound(nn, v1);
  }

  lemma DivisionBound(nn: int, d: int)
    requires 0 <= nn < d * 0x1_0000 && 0 < d
    ensures 0 <= nn / d < 0x1_0000 && nn == (nn / d) * d + nn % d && 0 <= nn % d < d
  {
  }

  lemma ProductFits(v: int, q: int)
    requires 0 <= v < 0x1_0000 && 0 <= q <= 0x1_0000
    ensures 0 <= v * q <= (0x1_0000 - 1) * 0x1_0000
    ensures q < 0x1_0000 ==> v * q <= (0x1_0000 - 1) * (0x1_0000 - 1)
    ensures Wrap(v * q) == v * q
  {
    MulMonotone(v, 0x1_0000 - 1, q);
    MulMonotone(0, v, q);
  }

  // A digit that is best for the leading digits is best for the whole numbers, or one too large.
  // Here k is the weight of the digits that the estimate did not look at.
  lemma EstimateOffByAtMostOne(q: int, u3: int, ur: int, d2: int, dr: int, k: int, u: int, d: int)
    requires BestDigit(q, u3, d2)
    requires u == u3 * k + ur && 0 <= ur < k
    requires d == d2 * k + dr && 0 <= dr < k
    requires d2 >= 0x1_0000 && 0 <= u < d * 0x1_0000
    ensures -d <= u - q * d < d
  {
    MulMonotone(0x1_0000, d2, k);
    assert q * d == (q * d2) * k + q * dr;
    MulMonotone(q * d2, u3, k);
    assert q * dr <= 0x1_0000 * k by {
      MulMonotone(q, 0x1_0000, dr);
    }
    MulDistribute(q, 1, d);
    if q < 0x1_0000 - 1 {
      assert (q + 1) * d == ((q + 1) * d2) * k + (q + 1) * dr;
      MulMonotone(u3 + 1, (q + 1) * d2, k);
      MulDistribute(u3, 1, k);
      MulMonotone(0, q + 1, dr);
    }
  }

  // ---------------------------------------------------------------------------------------------
  // D4: multiply and subtract

  // The wrapped word holds the new digit below and the borrow, negated, above.
  lemma BorrowStep(x: int, p: int, t: int, w: int, lo: int, borrow: int)
    requires 0 <= x < 0x1_0000 && 0 <= p <= 0xFFFF * 0xFFFF && 0 <= t < 0x1_0000
    requires w == Wrap(Wrap(x - Wrap(p)) - t)
    requires lo == LHalf(w) && borrow == LHalf(0x1_0000 - HHalf(w))
    ensures lo - 0x1_0000 * borrow == x - p - t
    ensures 0 <= lo < 0x1_0000 && 0 <= borrow < 0x1_0000
  {
    hide Wrap, LHalf, HHalf;
    WrapSub(x, p, t);
    WrappedHalves(x - p - t, w);
  }

  lemma WrapSub(x: int, p: int, t: int)
    ensures Wrap(Wrap(x - Wrap(p)) - t) == Wrap(x - p - t)
  {
  }

  // The halves of a word that holds a number between -B^2 and B.
  lemma WrappedHalves(y: int, w: int)
    requires -0xFFFF * 0xFFFF - 0xFFFF <= y < 0x1_0000 && w == Wrap(y)
    ensures LHalf(w) - 0x1_0000 * LHalf(0x1_0000 - HHalf(w)) == y
    ensures 0 <= LHalf(w) < 0x1_0000 && 0 <= LHalf(0x1_0000 - HHalf(w)) < 0x1_0000
  {
    assert w == if y >= 0 then y else y + 0x1_0000_0000;
  }

  lemma MulSubAlgebra(x: int, y: int, q: int, t: int, lo: int, b: int, p: int, nv: int, uv: int, vv: int)
    requires lo - 0x1_0000 * b == x - y * q - t
    requires nv - t * p == uv - q * vv
    ensures (lo * p + nv) - b * (0x1_0000 * p) == (x * p + uv) - q * (y * p + vv)
  {
    assert (lo - 0x1_0000 * b) * p == lo * p - (0x1_0000 * b) * p;
    assert (x - y * q - t) * p == x * p - (y * q) * p - t * p;
    assert q * (y * p + vv) == (y * q) * p + q * vv;
  }

  // done are the digits from the i-th on of us - qhat * vs, and t is the borrow out of them.
  ghost predicate Subtracted(us: seq<int>, vs: seq<int>, i: nat, done: seq<int>, t: int, qhat: int) {
    && |us| == |vs| + 1 && i <= |vs| && |done| == |vs| - i
    && Val(done) - t * BPow(|vs| - i) == Val(us[i + 1..]) - qhat * Val(vs[i..])
  }

  lemma SubtractedNone(us: seq<int>, vs: seq<int>, qhat: int)
    requires |us| == |vs| + 1
    ensures Subtracted(us, vs, |vs|, [], 0, qhat)
  {
    hide Val, BPow;
    ValEmpty();
    assert us[|vs| + 1..] == [] && vs[|vs|..] == [];
  }

  lemma SubtractedAll(us: seq<int>, vs: seq<int>, done: seq<int>, t: int, qhat: int)
    requires Subtracted(us, vs, 0, done, t, qhat)
    ensures Val(done) - t * BPow(|vs|) == Val(us[1..]) - qhat * Val(vs)
  {
    hide Val, BPow;
    assert vs[0..] == vs;
  }

  // The loop of D4: all digits of the window but the top one; t is the borrow that is left.
  method SubtractTail(u: array<int>, v: array<int>, uo: nat, vo: nat, n: nat, qhat: int) returns (t: int)
    requires u != v && uo + n + 1 <= u.Length && vo + n + 1 <= v.Length
    requires Digits(Window(u, uo, n + 1)) && Digits(Window(v, vo + 1, n))
    requires 0 <= qhat < 0x1_0000
    modifies u
    ensures 0 <= t < 0x1_0000
    ensures Digits(Window(u, uo + 1, n))
    ensures Val(Window(u, uo + 1, n)) - t * BPow(n)
         == Val(old(Window(u, uo + 1, n))) - qhat * Val(Window(v, vo + 1, n))
    ensures OnlyWindow(old(u[..]), u[..], uo + 1, n)
  {
    hide Val, BPow, Subtracted;
    ghost var us, vs := Window(u, uo, n + 1), Window(v, vo + 1, n);
    ghost var before := u[..];
    SubtractedNone(us, vs, qhat);
    t := 0;
    var i := n;
    ghost var done: seq<int> := [];
    while i > 0
      invariant 0 <= i <= n && 0 <= t < 0x1_0000
      invariant forall k :: 0 <= k < u.Length && (k <= uo + i || uo + n < k) ==> u[k] == before[k]
      invariant done == u[uo + i + 1..uo + n + 1]
      invariant Digits(done)
      invariant Subtracted(us, vs, i, done, t, qhat)
    {
      assert u[uo + i] == us[i] && v[vo + i] == vs[i - 1];
      var lo;
      lo, t := SubtractDigit(u[uo + i], v[vo + i], qhat, t, us, vs, i, done);
      u[uo + i] := lo;
      done := [lo] + done;
      i := i - 1;
    }
    SubtractedAll(us, vs, done, t, qhat);
    assert us[1..] == old(Window(u, uo + 1, n));
  }

  // u[uo..uo + n] -= qhat * v[vo + 1..vo + n], in the digits of u; borrow tells that the result is
  // negative and has been stored modulo the width of the window.
  method MultiplySubtract(u: array<int>, v: array<int>, uo: nat, vo: nat, n: nat, qhat: int) returns (borrow: bool)
    requires u != v && uo + n + 1 <= u.Length && vo + n + 1 <= v.Length
    requires Digits(Window(u, uo, n + 1)) && Digits(Window(v, vo + 1, n))
    requires 0 <= qhat < 0x1_0000
    modifies u
    ensures Digits(Window(u, uo, n + 1))
    ensures Val(Window(u, uo, n + 1))
         == Val(old(Window(u, uo, n + 1))) - qhat * Val(Window(v, vo + 1, n)) + if borrow then BPow(n + 1) else 0
    ensures OnlyWindow(old(u[..]), u[..], uo, n + 1)
  {
    hide Val, BPow;
    ghost var us := Window(u, uo, n + 1);
    var t := SubtractTail(u, v, uo, vo, n, qhat);
    assert u[uo] == us[0] && us[1..] == old(Window(u, uo + 1, n));
    ghost var t0, tail := t, Window(u, uo + 1, n);
    t := Wrap(u[uo] - t);
    u[uo] := LHalf(t);
    borrow := HHalf(t) != 0;
    ValCons(u[uo], tail);
    ValCons(us[0], us[1..]);
    assert us == [us[0]] + us[1..];
    assert Window(u, uo, n + 1) == [u[uo]] + tail;
    TopDigit(us[0], t0, t, u[uo], borrow, BPow(n), Val(tail), Val(us[1..]), qhat * Val(Window(v, vo + 1, n)));
  }

  lemma ConsDigits(us: seq<int>, vs: seq<int>, i: nat, lo: int, done: seq<int>)
    requires |us| == |vs| + 1 && 0 < i <= |vs| && |done| == |vs| - i
    ensures Val([lo] + done) == lo * BPow(|vs| - i) + Val(done)
    ensures Val(us[i..]) == us[i] * BPow(|vs| - i) + Val(us[i + 1..])
    ensures Val(vs[i - 1..]) == vs[i - 1] * BPow(|vs| - i) + Val(vs[i..])
    ensures BPow(|vs| - i + 1) == 0x1_0000 * BPow(|vs| - i)
  {
    ValCons(lo, done);
    ValCons(us[i], us[i + 1..]);
    ValCons(vs[i - 1], vs[i..]);
    assert us[i..] == [us[i]] + us[i + 1..] && vs[i - 1..] == [vs[i - 1]] + vs[i..];
  }

  // One step of the loop of D4, on the words alone.
  method SubtractDigit(x: int, y: int, qhat: int, t: int,
                       ghost us: seq<int>, ghost vs: seq<int>, ghost i: nat, ghost done: seq<int>)
    returns (lo: int, t': int)
    requires i > 0 && Subtracted(us, vs, i, done, t, qhat)
    requires x == us[i] && y == vs[i - 1]
    requires 0 <= x < 0x1_0000 && 0 <= y < 0x1_0000 && 0 <= qhat < 0x1_0000 && 0 <= t < 0x1_0000
    ensures 0 <= lo < 0x1_0000 && 0 <= t' < 0x1_0000
    ensures Subtracted(us, vs, i - 1, [lo] + done, t', qhat)
  {
    hide Val, BPow;
    ProductFits(y, qhat);
    var w := Wrap(Wrap(x - Wrap(y * qhat)) - t);
    lo := LHalf(w);
    t' := LHalf(0x1_0000 - HHalf(w));
    BorrowStep(x, y * qhat, t, w, lo, t');
    ConsDigits(us, vs, i, lo, done);
    MulSubAlgebra(x, y, qhat, t, lo, t', BPow(|vs| - i), Val(done), Val(us[i + 1..]), Val(vs[i..]));
  }

  lemma TopDigit(x: int, t0: int, t: int, lo: int, borrow: bool, p: int, nv: int, uv: int, qv: int)
    requires 0 <= x < 0x1_0000 && 0 <= t0 < 0x1_0000
    requires t == Wrap(x - t0) && lo == LHalf(t) && borrow == (HHalf(t) != 0)
    requires nv - t0 * p == uv - qv
    ensures lo * p + nv == x * p + uv - qv + if borrow then 0x1_0000 * p else 0
  {
    var b := if borrow then 1 else 0;
    assert lo == x - t0 + 0x1_0000 * b;
    assert (x - t0 + 0x1_0000 * b) * p == x * p - t0 * p + (0x1_0000 * b) * p;
  }

  // ---------------------------------------------------------------------------------------------
  // D6: add back

  lemma AddAlgebra(x: int, y: int, t: int, lo: int, c: int, p: int, nv: int, uv: int, vv: int)
    requires lo + 0x1_0000 * c == x + y + t
    requires nv + t * p == uv + vv
    ensures (lo * p + nv) + c * (0x1_0000 * p) == (x * p + uv) + (y * p + vv)
  {
    assert (lo + 0x1_0000 * c) * p == lo * p + (0x1_0000 * c) * p;
    assert (x + y + t) * p == x * p + y * p + t * p;
  }

  // done is the sum of the digits after the i-th, but for the carry t.
  ghost predicate AddedUp(done: seq<int>, t: int, us: seq<int>, vs: seq<int>, i: nat)
    requires |us| == |vs| + 1 && i <= |vs|
  {
    Val(done) + t * BPow(|vs| - i) == Val(us[i + 1..]) + Val(vs[i..])
  }

  method AddDigit(x: int, y: int, t: int, ghost us: seq<int>, ghost vs: seq<int>, ghost i: nat, ghost done: seq<int>)
    returns (lo: int, t': int)
    requires |us| == |vs| + 1 && 0 < i <= |vs| && |done| == |vs| - i
    requires x == us[i] && y == vs[i - 1]
    requires 0 <= x < 0x1_0000 && 0 <= y < 0x1_0000 && 0 <= t <= 1
    requires AddedUp(done, t, us, vs, i)
    ensures 0 <= lo < 0x1_0000 && 0 <= t' <= 1
    ensures AddedUp([lo] + done, t', us, vs, i - 1)
  {
    hide Val, BPow;
    var w := Wrap(t + Wrap(x + y));
    lo := LHalf(w);
    t' := HHalf(w);
    ConsDigits(us, vs, i, lo, done);
    AddAlgebra(x, y, t, lo, t', BPow(|vs| - i), Val(done), Val(us[i + 1..]), Val(vs[i..]));
  }

  lemma NothingAdded(us: seq<int>, vs: seq<int>)
    requires |us| == |vs| + 1
    ensures AddedUp([], 0, us, vs, |vs|)
  {
    ValEmpty();
    assert us[|vs| + 1..] == [] && vs[|vs|..] == [];
  }

  lemma AllAdded(done: seq<int>, t: int, us: seq<int>, vs: seq<int>)
    requires |us| == |vs| + 1 && AddedUp(done, t, us, vs, 0)
    ensures Val(done) + t * BPow(|vs|) == Val(us[1..]) + Val(vs)
  {
    assert vs[0..] == vs;
  }

  method AddTail(u: array<int>, v: array<int>, uo: nat, vo: nat, n: nat) returns (t: int)
    requires u != v && uo + n + 1 <= u.Length && vo + n + 1 <= v.Length
    requires Digits(Window(u, uo, n + 1)) && Digits(Window(v, vo + 1, n))
    modifies u
    ensures 0 <= t <= 1
    ensures Digits(Window(u, uo + 1, n))
    ensures Val(Window(u, uo + 1, n)) + t * BPow(n) == Val(old(Window(u, uo + 1, n))) + Val(Window(v, vo + 1, n))
    ensures OnlyWindow(old(u[..]), u[..], uo + 1, n)
  {
    hide Val, BPow, AddedUp;
    ghost var us, vs := Window(u, uo, n + 1), Window(v, vo + 1, n);
    ghost var before := u[..];
    NothingAdded(us, vs);
    t := 0;
    var i := n;
    ghost var done: seq<int> := [];
    while i > 0
      invariant 0 <= i <= n && 0 <= t <= 1
      invariant forall k :: 0 <= k < u.Length && (k <= uo + i || uo + n < k) ==> u[k] == before[k]
      invariant done == u[uo + i + 1..uo + n + 1]
      invariant Digits(done)
      invariant AddedUp(done, t, us, vs, i)
    {
      assert u[uo + i] == us[i] && v[vo + i] == vs[i - 1];
      var lo;
      lo, t := AddDigit(u[uo + i], v[vo + i], t, us, vs, i, done);
      u[uo + i] := lo;
      done := [lo] + done;
      i := i - 1;
    }
    assert us[1..] == old(Window(u, uo + 1, n));
    AllAdded(done, t, us, vs);
  }

  // Adds v back to the window; the carry out of its top digit is dropped.
  method AddBack(u: array<int>, v: array<int>, uo: nat, vo: nat, n: nat) returns (ghost carry: int)
    requires u != v && uo + n + 1 <= u.Length && vo + n + 1 <= v.Length
    requires Digits(Window(u, uo, n + 1)) && Digits(Window(v, vo + 1, n))
    modifies u
    ensures Digits(Window(u, uo, n + 1))
    ensures 0 <= carry <= 1
    ensures Val(Window(u, uo, n + 1)) + carry * BPow(n + 1) == Val(old(Window(u, uo, n + 1))) + Val(Window(v, vo + 1, n))
    ensures OnlyWindow(old(u[..]), u[..], uo, n + 1)
  {
    hide Val, BPow;
    ghost var us := Window(u, uo, n + 1);
    var t := AddTail(u, v, uo, vo, n);
    assert u[uo] == us[0] && us[1..] == old(Window(u, uo + 1, n));
    ghost var tail := Window(u, uo + 1, n);
    carry := (us[0] + t) / 0x1_0000;
    u[uo] := LHalf(Wrap(u[uo] + t));
    ValCons(u[uo], tail);
    ValCons(us[0], us[1..]);
    assert us == [us[0]] + us[1..];
    assert Window(u, uo, n + 1) == [u[uo]] + tail;
    AddAlgebra(us[0], 0, t, u[uo], carry, BPow(n), Val(tail), Val(us[1..]), Val(Window(v, vo + 1, n)));
  }

  // ---------------------------------------------------------------------------------------------
  // D3 to D6: one quotient digit

  lemma SplitThree(s: seq<int>)
    requires |s| >= 3
    ensures Val(s) == (s[0] * 0x1_0000_0000 + s[1] * 0x1_0000 + s[2]) * BPow(|s| - 3) + Val(s[3..])
  {
    var k := BPow(|s| - 3);
    assert s[1..][1..] == s[2..] && s[2..][1..] == s[3..];
    assert BPow(|s| - 2) == 0x1_0000 * k;
    assert BPow(|s| - 1) == 0x1_0000 * (0x1_0000 * k);
    assert Val(s) == s[0] * BPow(|s| - 1) + (s[1] * BPow(|s| - 2) + (s[2] * k + Val(s[3..])));
    SplitAlgebra(s[0], s[1], s[2], k);
  }

  lemma SplitAlgebra(x: int, y: int, z: int, k: int)
    ensures (x * 0x1_0000_0000 + y * 0x1_0000 + z) * k == x * (0x1_0000 * (0x1_0000 * k)) + y * (0x1_0000 * k) + z * k
  {
  }

  lemma SplitTwo(s: seq<int>)
    requires |s| >= 2
    ensures Val(s) == (s[0] * 0x1_0000 + s[1]) * BPow(|s| - 2) + Val(s[2..])
  {
    hide Val, BPow;
    var k := BPow(|s| - 2);
    assert s[1..][1..] == s[2..];
    ValHead(s);
    ValHead(s[1..]);
    BPowNext(|s| - 2);
    SplitAlgebra(0, s[0], s[1], k);
  }

  lemma ValHead(s: seq<int>)
    requires s != []
    ensures Val(s) == s[0] * BPow(|s| - 1) + Val(s[1..])
  {
    hide BPow;
  }

  lemma TopDigitBound(us: seq<int>, vs: seq<int>)
    requires |us| == |vs| + 1 && |vs| >= 1 && Digits(us) && Digits(vs)
    requires Val(us) < Val(vs) * 0x1_0000
    ensures us[0] <= vs[0]
  {
    ValLeading(us);
    ValLeading(vs);
    CancelFactor(us[0], vs[0] + 1, BPow(|vs| - 1));
  }

  lemma CancelFactor(x: int, y: int, p: int)
    requires p > 0 && x * (0x1_0000 * p) < (y * p) * 0x1_0000
    ensures x < y
  {
    assert x * (0x1_0000 * p) == (x * p) * 0x1_0000;
    assert x * p < y * p;
    if x >= y {
      MulMonotone(y, x, p);
      assert false;
    }
  }

  // The digit that EstimateDigit computes for us by vs leaves a remainder between -vs and vs.
  lemma EstimateGood(us: seq<int>, vs: seq<int>, q: int)
    requires |us| == |vs| + 1 && |vs| >= 2 && Digits(us) && Digits(vs) && vs[0] > 0
    requires Val(us) < Val(vs) * 0x1_0000
    requires BestDigit(q, us[0] * 0x1_0000_0000 + us[1] * 0x1_0000 + us[2], vs[0] * 0x1_0000 + vs[1])
    ensures -Val(vs) <= Val(us) - q * Val(vs) < Val(vs)
  {
    hide Val, BPow;
    SplitThree(us);
    SplitTwo(vs);
    ValBound(us);
    ValBound(us[3..]);
    ValBound(vs[2..]);
    EstimateOffByAtMostOne(q, us[0] * 0x1_0000_0000 + us[1] * 0x1_0000 + us[2], Val(us[3..]),
                           vs[0] * 0x1_0000 + vs[1], Val(vs[2..]), BPow(|vs| - 2), Val(us), Val(vs));
  }

  // q is the quotient of u by d, and r the remainder.
  ghost predicate Divides(u: int, d: int, q: int, r: int) {
    u == q * d + r && 0 <= r < d
  }

  /** One round of the loop of Algorithm D: the window is replaced by its remainder by v, and the digit
      returned is its quotient. */
  method DivideStep(u: array<int>, v: array<int>, uo: nat, vo: nat, n: nat) returns (qhat: int)
    requires u != v && uo + n + 1 <= u.Length && vo + n + 1 <= v.Length && n >= 2
    requires Digits(Window(u, uo, n + 1)) && Digits(Window(v, vo + 1, n))
    requires v[vo + 1] > 0
    requires Val(Window(u, uo, n + 1)) < Val(Window(v, vo + 1, n)) * 0x1_0000
    modifies u
    ensures 0 <= qhat < 0x1_0000
    ensures Digits(Window(u, uo, n + 1))
    ensures Divides(Val(old(Window(u, uo, n + 1))), Val(Window(v, vo + 1, n)), qhat, Val(Window(u, uo, n + 1)))
    ensures OnlyWindow(old(u[..]), u[..], uo, n + 1)
  {
    hide Val, BPow;
    ghost var us, vs := Window(u, uo, n + 1), Window(v, vo + 1, n);
    assert us[0] == u[uo] && us[1] == u[uo + 1] && us[2] == u[uo + 2] && vs[0] == v[vo + 1] && vs[1] == v[vo + 2];
    TopDigitBound(us, vs);
    qhat := EstimateDigit(u[uo], u[uo + 1], u[uo + 2], v[vo + 1], v[vo + 2]);
    EstimateGood(us, vs, qhat);
    ValBound(us);
    ghost var q0 := qhat;
    var borrow := MultiplySubtract(u, v, uo, vo, n, qhat);
    ghost var mid := Val(Window(u, uo, n + 1));
    ValBound(Window(u, uo, n + 1));
    ValBound(vs);
    if borrow {
      qhat := qhat - 1;
      assert Window(v, vo + 1, n) == vs;
      ghost var carry := AddBack(u, v, uo, vo, n);
      ValBound(Window(u, uo, n + 1));
      MulDistribute(q0, 1, Val(vs));
      Repaired(Val(us), Val(vs), q0, mid, carry, Val(Window(u, uo, n + 1)), BPow(n + 1));
    }
  }

  // The borrow shows that the digit is one too large, and one add-back repairs it.
  lemma Repaired(u: int, d: int, q: int, mid: int, carry: int, r: int, p: int)
    requires -d <= u - q * d < d && mid == u - q * d + p && 0 <= mid < p && d >= 0
    requires r + carry * p == mid + d && 0 <= r < p && 0 <= carry <= 1
    requires u >= 0
    ensures q >= 1 && Divides(u, d, q - 1, r)
  {
    MulDistribute(q, 1, d);
    assert carry == 1;
    if q <= 0 {
      MulMonotone(q, 0, d);
      assert false;
    }
  }

  // ---------------------------------------------------------------------------------------------
  // D2 to D7: the loop over the quotient digits

  lemma LeadingZero(s: seq<int>, p: int)
    requires s != [] && Digits(s) && Val(s) < p <= BPow(|s| - 1)
    ensures s[0] == 0 && Val(s[1..]) == Val(s)
  {
    hide Val, BPow;
    ValLeading(s);
    if s[0] >= 1 {
      MulMonotone(1, s[0], BPow(|s| - 1));
      assert false;
    }
    ValCons(0, s[1..]);
    assert s == [0] + s[1..];
  }

  // The dividend so far: quotient digits times divisor, plus what is left in u.
  ghost predicate PartialQuotient(whole: int, quotient: int, d: int, weight: int, rest: int) {
    whole == quotient * (d * weight) + rest
  }

  lemma ExtendQuotient(whole: int, quotient: int, d: int, weight: int, win: int, tail: int, q: int, r: int)
    requires PartialQuotient(whole, quotient, d, 0x1_0000 * weight, win * weight + tail)
    requires Divides(win, d, q, r)
    ensures PartialQuotient(whole, quotient * 0x1_0000 + q, d, weight, r * weight + tail)
  {
    assert quotient * (d * (0x1_0000 * weight)) == (quotient * 0x1_0000) * (d * weight) by {
      assert d * (0x1_0000 * weight) == 0x1_0000 * (d * weight);
    }
    assert (q * d + r) * weight == q * (d * weight) + r * weight;
    MulDistribute(quotient * 0x1_0000, q, d * weight);
  }

  // us, the digits of u from the current position on, is win followed by tail; us' likewise after
  // the step.
  lemma StepValues(us: seq<int>, us': seq<int>, n: nat, d: int, q: int)
    requires |us| == |us'| && n + 1 <= |us| && Digits(us) && Digits(us')
    requires us'[n + 1..] == us[n + 1..]
    requires Divides(Val(us[..n + 1]), d, q, Val(us'[..n + 1])) && d <= BPow(n)
    ensures Val(us) == Val(us[..n + 1]) * BPow(|us| - n - 1) + Val(us[n + 1..])
    ensures us'[0] == 0
    ensures Val(us'[1..]) == Val(us'[..n + 1]) * BPow(|us| - n - 1) + Val(us[n + 1..])
    ensures Val(us'[1..n + 1]) < d
  {
    hide Val, BPow;
    assert us == us[..n + 1] + us[n + 1..] && us' == us'[..n + 1] + us'[n + 1..];
    ValConcat(us[..n + 1], us[n + 1..]);
    ValConcat(us'[..n + 1], us'[n + 1..]);
    LeadingZero(us'[..n + 1], d);
    assert us'[..n + 1][1..] == us'[1..n + 1];
    ValCons(0, us'[1..]);
    assert us' == [0] + us'[1..];
  }

  lemma WindowBound(us: seq<int>, n: nat, d: int)
    requires n + 1 <= |us| && Digits(us) && Val(us[..n]) < d
    ensures Val(us[..n + 1]) < d * 0x1_0000
  {
    ValSnoc(us[..n], us[n]);
    assert us[..n + 1] == us[..n] + [us[n]];
  }

  // The loop invariant: us are all digits of u, qs the quotient digits found so far.
  ghost predicate Progress(us: seq<int>, qs: seq<int>, whole: int, d: int, m: nat, n: nat) {
    && |us| == m + n + 1 && |qs| <= m + 1
    && Digits(us) && Digits(qs)
    && (forall k :: 0 <= k < |qs| ==> us[k] == 0)
    && Val(us[|qs|..|qs| + n]) < d
    && PartialQuotient(whole, Val(qs), d, BPow(m + 1 - |qs|), Val(us[|qs|..]))
  }

  lemma ProgressStep(us: seq<int>, us': seq<int>, qs: seq<int>, qhat: int, whole: int, d: int, m: nat, n: nat)
    requires Progress(us, qs, whole, d, m, n) && |qs| <= m && 0 <= qhat < 0x1_0000
    requires OnlyWindow(us, us', |qs|, n + 1) && Digits(us')
    requires Divides(Val(us[|qs|..|qs| + n + 1]), d, qhat, Val(us'[|qs|..|qs| + n + 1])) && d <= BPow(n)
    ensures Progress(us', qs + [qhat], whole, d, m, n)
  {
    hide Val, BPow, PartialQuotient, Divides;
    var j := |qs|;
    var ws, ws' := us[j..], us'[j..];
    assert ws[..n + 1] == us[j..j + n + 1] && ws'[..n + 1] == us'[j..j + n + 1] && ws'[n + 1..] == ws[n + 1..];
    StepValues(ws, ws', n, d, qhat);
    ValCons(0, us[j + n + 1..]);
    BPowNext(m - j);
    ExtendQuotient(whole, Val(qs), d, BPow(m - j), Val(ws[..n + 1]), Val(ws[n + 1..]), qhat, Val(ws'[..n + 1]));
    ValSnoc(qs, qhat);
    assert ws'[1..] == us'[j + 1..] && ws'[1..n + 1] == us'[j + 1..j + 1 + n];
    assert ws'[0] == us'[j];
  }

  lemma BPowNext(k: nat)
    ensures BPow(k + 1) == 0x1_0000 * BPow(k)
  {
  }

  method DivideLoop(u: array<int>, v: array<int>, q: array<int>, uo: nat, vo: nat, qo: nat, m: nat, n: nat)
    requires u != v && v != q && u != q && n >= 2
    requires uo + m + n + 1 == u.Length && vo + n + 1 <= v.Length && qo + m + 1 <= q.Length
    requires Digits(Window(u, uo, m + n + 1)) && Digits(Window(v, vo + 1, n)) && v[vo + 1] > 0
    requires Val(Window(u, uo, n)) < Val(Window(v, vo + 1, n))
    modifies u, q
    ensures Progress(Window(u, uo, m + n + 1), Window(q, qo, m + 1),
                     Val(old(Window(u, uo, m + n + 1))), Val(Window(v, vo + 1, n)), m, n)
    ensures OnlyWindow(old(u[..]), u[..], uo, m + n + 1) && OnlyWindow(old(q[..]), q[..], qo, m + 1)
  {
    hide Val, BPow, Divides, PartialQuotient;
    ghost var vs := Window(v, vo + 1, n);
    ghost var whole, d := Val(Window(u, uo, m + n + 1)), Val(vs);
    ghost var u0, q0 := u[..], q[..];
    var j := 0;
    ValBound(vs);
    StartQuotient(whole, d, BPow(m + 1));
    ValEmpty();
    assert Window(u, uo, m + n + 1)[0..0 + n] == Window(u, uo, n);
    assert Window(u, uo, m + n + 1)[0..] == Window(u, uo, m + n + 1);
    while j <= m
      invariant 0 <= j <= m + 1
      invariant Window(v, vo + 1, n) == vs
      invariant Progress(Window(u, uo, m + n + 1), Window(q, qo, j), whole, d, m, n)
      invariant OnlyWindow(u0, u[..], uo, m + n + 1) && OnlyWindow(q0, q[..], qo, m + 1)
    {
      ghost var u1, q1 := u[..], q[..];
      DivideRound(u, v, q, uo, vo, qo, m, n, j, whole);
      OnlySubWindow(u0, u1, u[..], uo, m + n + 1, j, n + 1);
      OnlySubWindow(q0, q1, q[..], qo, m + 1, j, 1);
      j := j + 1;
    }
  }

  // The body of the loop.
  method DivideRound(u: array<int>, v: array<int>, q: array<int>, uo: nat, vo: nat, qo: nat, m: nat, n: nat, j: nat,
                     ghost whole: int)
    requires u != v && v != q && u != q && n >= 2 && j <= m
    requires uo + m + n + 1 == u.Length && vo + n + 1 <= v.Length && qo + m + 1 <= q.Length
    requires Digits(Window(v, vo + 1, n)) && v[vo + 1] > 0
    requires Progress(Window(u, uo, m + n + 1), Window(q, qo, j), whole, Val(Window(v, vo + 1, n)), m, n)
    modifies u, q
    ensures Progress(Window(u, uo, m + n + 1), Window(q, qo, j + 1), whole, Val(Window(v, vo + 1, n)), m, n)
    ensures OnlyWindow(old(u[..]), u[..], uo + j, n + 1) && OnlyWindow(old(q[..]), q[..], qo + j, 1)
  {
    hide Val, BPow, Divides, PartialQuotient, Window;
    ghost var vs, us, qs := Window(v, vo + 1, n), Window(u, uo, m + n + 1), Window(q, qo, j);
    ValBound(vs);
    BeforeStep(us, n, j, Val(vs));
    SubWindow(u, uo, m + n + 1, j, n + 1);
    var qhat := DivideStep(u, v, uo + j, vo, n);
    ghost var us' := Window(u, uo, m + n + 1);
    SubWindow(u, uo, m + n + 1, j, n + 1);
    StepDigits(us, us', j, n);
    assert Window(v, vo + 1, n) == vs && Window(q, qo, j) == qs;
    ProgressStep(us, us', qs, qhat, whole, Val(vs), m, n);
    q[qo + j] := qhat;
    assert Window(q, qo, j + 1) == qs + [qhat];
    assert Window(u, uo, m + n + 1) == us' && Window(v, vo + 1, n) == vs;
  }

  lemma SubWindow(p: array<int>, o: nat, len: nat, j: nat, n: nat)
    requires o + len <= p.Length && j + n <= len
    ensures Window(p, o, len)[j..j + n] == Window(p, o + j, n)
  {
    hide Window;
  }

  lemma OnlySubWindow(s0: seq<int>, s1: seq<int>, s2: seq<int>, o: nat, len: nat, j: nat, n: nat)
    requires OnlyWindow(s0, s1, o, len) && OnlyWindow(s1, s2, o + j, n) && j + n <= len && o + len <= |s0|
    ensures OnlyWindow(s0, s2, o, len) && OnlyWindow(s1[o..o + len], s2[o..o + len], j, n)
  {
  }

  lemma BeforeStep(us: seq<int>, n: nat, j: nat, d: int)
    requires j + n + 1 <= |us| && Digits(us) && Val(us[j..j + n]) < d
    ensures Val(us[j..j + n + 1]) < d * 0x1_0000 && Digits(us[j..j + n + 1])
  {
    assert us[j..][..n] == us[j..j + n] && us[j..][..n + 1] == us[j..j + n + 1];
    WindowBound(us[j..], n, d);
  }

  lemma StepDigits(us: seq<int>, us': seq<int>, j: nat, n: nat)
    requires OnlyWindow(us, us', j, n + 1) && j + n + 1 <= |us| && Digits(us) && Digits(us'[j..j + n + 1])
    ensures Digits(us')
  {
    forall k | 0 <= k < |us'| ensures 0 <= us'[k] < 0x1_0000 {
      if j <= k < j + n + 1 {
        assert us'[k] == us'[j..j + n + 1][k - j];
      }
    }
  }

  lemma StartQuotient(whole: int, d: int, weight: int)
    ensures PartialQuotient(whole, 0, d, weight, whole)
  {
  }

  lemma EndQuotient(whole: int, quotient: int, d: int, r: int)
    requires PartialQuotient(whole, quotient, d, BPow(0), r) && 0 <= r < d
    ensures Divides(whole, d, quotient, r)
  {
  }

  // ---------------------------------------------------------------------------------------------
  // D1 and the final shift: normalising by 2^sh

  lemma Pow2Sum(a: nat, b: nat)
    ensures Pow2(a + b) == Pow2(a) * Pow2(b)
  {
    if a > 0 {
      Pow2Sum(a - 1, b);
      MulAssociate(2, Pow2(a - 1), Pow2(b));
    }
  }

  lemma ShiftFactors(sh: nat)
    requires sh <= 16
    ensures Pow2(sh) * Pow2(16 - sh) == 0x1_0000 && Pow2(16 - sh) * Pow2(sh) == 0x1_0000
  {
    Pow2Sum(sh, 16 - sh);
    Pow2Sixteen();
  }

  // Shifting a digit by the factor d, where d * e is the base: what stays and what falls out.
  lemma ShiftDigit(x: int, d: int, e: int)
    requires 0 <= x < 0x1_0000 && d > 0 && e > 0 && d * e == 0x1_0000
    ensures LHalf(Wrap(x * d)) == (x % e) * d
    ensures 0 <= x / e < d && 0 <= x % e < e && x == (x / e) * e + x % e
    ensures 0 <= (x % e) * d && (x % e) * d + d <= 0x1_0000
  {
    hide Wrap, LHalf;
    var a, b := x / e, x % e;
    assert x == a * e + b && 0 <= b < e;
    ShiftParts(x, a, b, d, e);
    ModMultiple(a, b * d);
    WrapLow(x * d);
  }

  lemma ShiftParts(x: int, a: int, b: int, d: int, e: int)
    requires 0 <= x < d * e && d > 0 && e > 0 && d * e == 0x1_0000 && x == a * e + b && 0 <= b < e
    ensures 0 <= a < d
    ensures x * d == a * 0x1_0000 + b * d
    ensures 0 <= b * d && b * d + d <= 0x1_0000
  {
    if a >= d { MulMonotone(d, a, e); assert false; }
    if a < 0 { MulMonotone(a, -1, e); assert false; }
    MulDistribute(a * e, b, d);
    assert (a * e) * d == a * (d * e);
    MulMonotone(b + 1, e, d);
    MulDistribute(b, 1, d);
    MulMonotone(0, b, d);
  }

  lemma ModMultiple(a: int, r: int)
    requires 0 <= r < 0x1_0000
    ensures (a * 0x1_0000 + r) % 0x1_0000 == r
  {
  }

  lemma WrapLow(x: int)
    ensures LHalf(Wrap(x)) == x % 0x1_0000
  {
  }

  lemma {:induction false} OrCommutes(a: nat, b: nat)
    ensures Or(a, b) == Or(b, a)
  {
    if a > 0 || b > 0 {
      OrCommutes(a / 2, b / 2);
    }
  }

  // What a digit x with right neighbour y becomes when the number is shifted left by the factor d.
  function UpDigit(x: int, y: int, d: int, e: int): int
    requires e > 0
  {
    (x % e) * d + y / e
  }

  // The digit that shl stores.
  lemma ShlDigit(x: int, y: int, sh: nat)
    requires 0 <= x < 0x1_0000 && 0 <= y < 0x1_0000 && sh <= 16
    ensures LHalf(Shl(x, sh)) >= 0 && Shr(y, 16 - sh) >= 0
    ensures Or(LHalf(Shl(x, sh)), Shr(y, 16 - sh)) == UpDigit(x, y, Pow2(sh), Pow2(16 - sh))
    ensures LHalf(Shl(x, sh)) == UpDigit(x, 0, Pow2(sh), Pow2(16 - sh))
    ensures 0 <= UpDigit(x, y, Pow2(sh), Pow2(16 - sh)) < 0x1_0000
  {
    hide Pow2, Or;
    ShiftFactors(sh);
    ShiftDigit(x, Pow2(sh), Pow2(16 - sh));
    ShiftDigit(y, Pow2(sh), Pow2(16 - sh));
    OrDisjoint(x % Pow2(16 - sh), y / Pow2(16 - sh), sh);
  }

  // The digit that the final loop stores.
  lemma ShrDigit(x: int, y: int, sh: nat)
    requires 0 <= x < 0x1_0000 && 0 <= y < 0x1_0000 && sh <= 16
    ensures Shr(x, sh) >= 0 && LHalf(Shl(y, 16 - sh)) >= 0
    ensures Or(Shr(x, sh), LHalf(Shl(y, 16 - sh))) == UpDigit(y, x, Pow2(16 - sh), Pow2(sh))
    ensures 0 <= UpDigit(y, x, Pow2(16 - sh), Pow2(sh)) < 0x1_0000
  {
    hide Pow2, Or;
    ShlDigit(y, x, 16 - sh);
    OrCommutes(Shr(x, sh), LHalf(Shl(y, 16 - sh)));
  }

  // r is s shifted left by the factor d, digit by digit.
  ghost predicate ShiftedUp(s: seq<int>, r: seq<int>, d: int, e: int)
    requires e > 0
  {
    && |r| == |s|
    && forall i :: 0 <= i < |s| ==> r[i] == UpDigit(s[i], if i + 1 < |s| then s[i + 1] else 0, d, e)
  }

  lemma {:induction false} ShiftedUpValue(s: seq<int>, r: seq<int>, d: int, e: int)
    requires Digits(s) && d > 0 && e > 0 && d * e == 0x1_0000 && ShiftedUp(s, r, d, e) && s != []
    ensures Val(r) == Val(s) * d - (s[0] / e) * BPow(|s|)
    decreases |s|
  {
    hide Val, BPow, UpDigit;
    assert s == [s[0]] + s[1..] && r == [r[0]] + r[1..];
    ValCons(s[0], s[1..]);
    ValCons(r[0], r[1..]);
    ValEmpty();
    if |s| > 1 {
      ShiftedUpValue(s[1..], r[1..], d, e);
      UpAlgebra(s[0], s[1], BPow(|s| - 1), d, e, Val(s[1..]));
    } else {
      UpAlgebra(s[0], 0, BPow(|s| - 1), d, e, 0);
    }
  }

  lemma UpAlgebra(x: int, y: int, p: int, d: int, e: int, v: int)
    requires 0 <= x < 0x1_0000 && d > 0 && e > 0 && d * e == 0x1_0000
    ensures UpDigit(x, y, d, e) * p + (v * d - (y / e) * p) == (x * p + v) * d - (x / e) * (0x1_0000 * p)
    ensures 0 / e == 0
  {
    ShiftDigit(x, d, e);
    UpAlgebra'(x, x / e, x % e, y / e, p, d, e, v);
  }

  lemma UpAlgebra'(x: int, a: int, b: int, c: int, p: int, d: int, e: int, v: int)
    requires x == a * e + b && d * e == 0x1_0000
    ensures (b * d + c) * p + (v * d - c * p) == (x * p + v) * d - a * (0x1_0000 * p)
  {
    MulDistribute(b * d, c, p);
    MulDistribute(x * p, v, d);
    assert (x * p) * d == (a * (d * e)) * p + (b * d) * p;
    MulAssociate(a, 0x1_0000, p);
  }

  /** shl: multiplies the number in p[o..o + len] by 2^sh when its top bits are clear. */
  method ShiftLeft(p: array<int>, o: nat, len: nat, sh: nat)
    requires o + len + 1 <= p.Length && Digits(Window(p, o, len + 1))
    requires sh <= 15 && p[o] * Pow2(sh) < 0x1_0000
    modifies p
    ensures Digits(Window(p, o, len + 1))
    ensures Val(Window(p, o, len + 1)) == Val(old(Window(p, o, len + 1))) * Pow2(sh)
    ensures OnlyWindow(old(p[..]), p[..], o, len + 1)
  {
    hide Pow2, Or, Val, BPow, Shl, Shr, UpDigit, LHalf, Digits, Window, OnlyWindow, ShiftedUp;
    ghost var before := p[..];
    WindowIs(p, o, len + 1);
    ghost var d, e := Pow2(sh), Pow2(16 - sh);
    var i := 0;
    while i < len
      invariant 0 <= i <= len
      invariant forall k :: 0 <= k < p.Length && (k < o || o + i <= k) ==> p[k] == before[k]
      invariant forall k :: o <= k < o + i ==> p[k] == UpDigit(before[k], before[k + 1], d, e)
    {
      WindowDigit(before, o, len + 1, o + i);
      WindowDigit(before, o, len + 1, o + i + 1);
      ShlDigit(p[o + i], p[o + i + 1], sh);
      p[o + i] := Or(LHalf(Shl(p[o + i], sh)), Shr(p[o + i + 1], 16 - sh));
      i := i + 1;
    }
    WindowDigit(before, o, len + 1, o);
    WindowDigit(before, o, len + 1, o + len);
    ShlDigit(p[o + i], 0, sh);
    p[o + i] := LHalf(Shl(p[o + i], sh));
    WindowIs(p, o, len + 1);
    ShiftedUpWindow(before, p[..], o, len, sh);
    UpDigits(before[o..o + len + 1], p[o..o + len + 1], sh);
    TopFits(before[o], sh);
    ShiftedValue(before[o..o + len + 1], p[o..o + len + 1], sh);
  }

  lemma TopFits(x: int, sh: nat)
    requires 0 <= x
    ensures x * Pow2(sh) >= 0
  {
  }

  // Digits set one by one are a window shifted up.
  lemma ShiftedUpWindow(s: seq<int>, r: seq<int>, o: nat, len: nat, sh: nat)
    requires o + len + 1 <= |s| == |r| && sh <= 15
    requires forall k :: 0 <= k < |s| && (k < o || o + len < k) ==> r[k] == s[k]
    requires forall k :: o <= k < o + len ==> r[k] == UpDigit(s[k], s[k + 1], Pow2(sh), Pow2(16 - sh))
    requires r[o + len] == UpDigit(s[o + len], 0, Pow2(sh), Pow2(16 - sh))
    ensures ShiftedUp(s[o..o + len + 1], r[o..o + len + 1], Pow2(sh), Pow2(16 - sh))
    ensures OnlyWindow(s, r, o, len + 1)
  {
    hide Pow2, UpDigit;
    var a, b := s[o..o + len + 1], r[o..o + len + 1];
    forall i | 0 <= i < |a| ensures b[i] == UpDigit(a[i], if i + 1 < |a| then a[i + 1] else 0, Pow2(sh), Pow2(16 - sh)) {
      assert b[i] == r[o + i] && a[i] == s[o + i] && (i + 1 < |a| ==> a[i + 1] == s[o + i + 1]);
    }
  }

  lemma UpDigits(s: seq<int>, r: seq<int>, sh: nat)
    requires Digits(s) && sh <= 15 && ShiftedUp(s, r, Pow2(sh), Pow2(16 - sh))
    ensures Digits(r)
  {
    hide UpDigit, Pow2, Or, Shl, Shr, LHalf;
    forall i | 0 <= i < |r| ensures 0 <= r[i] < 0x1_0000 {
      var y := if i + 1 < |s| then s[i + 1] else 0;
      ShlDigit(s[i], y, sh);
      assert r[i] == UpDigit(s[i], y, Pow2(sh), Pow2(16 - sh));
    }
  }

  lemma ShiftedValue(s: seq<int>, r: seq<int>, sh: nat)
    requires s != [] && Digits(s) && sh <= 15 && 0 <= s[0] * Pow2(sh) < 0x1_0000
    requires ShiftedUp(s, r, Pow2(sh), Pow2(16 - sh))
    ensures Val(r) == Val(s) * Pow2(sh)
  {
    hide Pow2, Val, BPow;
    ShiftFactors(sh);
    ShiftedUpValue(s, r, Pow2(sh), Pow2(16 - sh));
    NoOverflow(s[0], Pow2(sh), Pow2(16 - sh));
  }

  lemma NoOverflow(x: int, d: int, e: int)
    requires 0 <= x && d > 0 && e > 0 && d * e == 0x1_0000 && x * d < 0x1_0000
    ensures x / e == 0
  {
    if x >= e {
      MulMonotone(e, x, d);
      assert false;
    }
  }

  // s, whose leading digit is zero, read one digit further left and shifted up is s shifted down.
  lemma ShiftedDownValue(s: seq<int>, r: seq<int>, d: int, e: int)
    requires |s| == |r| + 1 && Digits(s) && s[0] == 0 && d > 0 && e > 0 && d * e == 0x1_0000
    requires forall i :: 0 <= i < |r| ==> r[i] == UpDigit(s[i], s[i + 1], e, d)
    ensures Val(s) == Val(r) * d + s[|r|] % d
  {
    hide Val, BPow;
    var last := UpDigit(s[|r|], 0, e, d);
    assert e * d == 0x1_0000;
    ShiftedUpValue(s, r + [last], e, d);
    ValSnoc(r, last);
    UpAlgebra(0, 0, 1, e, d, 0);
    assert Val(r) * 0x1_0000 + (s[|r|] % d) * e == Val(s) * e;
    DownAlgebra(Val(s), Val(r), s[|r|] % d, d, e);
  }

  lemma DownAlgebra(v: int, w: int, l: int, d: int, e: int)
    requires d > 0 && e > 0 && d * e == 0x1_0000
    requires w * 0x1_0000 + l * e == v * e
    ensures v == w * d + l
  {
    assert w * (d * e) == (w * d) * e;
    assert (w * d + l - v) * e == 0;
  }

  // r is s, without its leading digit, shifted down; the leading digit of s gives the bits shifted in.
  ghost predicate ShiftedDown(s: seq<int>, r: seq<int>, d: int, e: int)
    requires d > 0
  {
    |s| == |r| + 1 && forall i :: 0 <= i < |r| ==> r[i] == UpDigit(s[i], s[i + 1], e, d)
  }

  lemma ShiftedDigits(s: seq<int>, r: seq<int>, sh: nat)
    requires Digits(s) && sh <= 15 && ShiftedDown(s, r, Pow2(sh), Pow2(16 - sh))
    ensures Digits(r)
  {
    hide UpDigit, Pow2, Or, Shl, Shr, LHalf;
    forall i | 0 <= i < |r| ensures 0 <= r[i] < 0x1_0000 {
      ShrDigit(s[i + 1], s[i], sh);
    }
  }

  // The loop that shifts the digits after p[o], from the right.
  method ShiftRightDigits(p: array<int>, o: nat, len: nat, sh: nat)
    requires o + len + 1 <= p.Length && Digits(Window(p, o, len + 1)) && sh <= 15
    modifies p
    ensures ShiftedDown(old(Window(p, o, len + 1)), Window(p, o + 1, len), Pow2(sh), Pow2(16 - sh))
    ensures Digits(Window(p, o + 1, len))
    ensures OnlyWindow(old(p[..]), p[..], o + 1, len)
  {
    hide Pow2, Or, Shl, Shr, UpDigit, LHalf, Window, OnlyWindow, ShiftedDown, Digits;
    ghost var before := p[..];
    WindowIs(p, o, len + 1);
    var i := o + len;
    while i > o
      invariant o <= i <= o + len
      invariant forall k :: 0 <= k < p.Length && (k <= i || o + len < k) ==> p[k] == before[k]
      invariant forall k :: i < k <= o + len ==> p[k] == UpDigit(before[k - 1], before[k], Pow2(16 - sh), Pow2(sh))
    {
      WindowDigit(before, o, len + 1, i);
      WindowDigit(before, o, len + 1, i - 1);
      ShrDigit(p[i], p[i - 1], sh);
      p[i] := Or(Shr(p[i], sh), LHalf(Shl(p[i - 1], 16 - sh)));
      i := i - 1;
    }
    WindowIs(p, o + 1, len);
    ShiftedWindow(before, p[..], o, len, sh);
    ShiftedDigits(before[o..o + len + 1], p[o + 1..o + len + 1], sh);
  }

  lemma WindowDigit(s: seq<int>, o: nat, n: nat, k: nat)
    requires o + n <= |s| && Digits(s[o..o + n]) && o <= k < o + n
    ensures 0 <= s[k] < 0x1_0000
  {
    assert s[k] == s[o..o + n][k - o];
  }

  // Digits set one by one are a window shifted down.
  lemma ShiftedWindow(s: seq<int>, r: seq<int>, o: nat, len: nat, sh: nat)
    requires o + len + 1 <= |s| == |r| && sh <= 15
    requires forall k :: 0 <= k < |s| && (k <= o || o + len < k) ==> r[k] == s[k]
    requires forall k :: o < k <= o + len ==> r[k] == UpDigit(s[k - 1], s[k], Pow2(16 - sh), Pow2(sh))
    ensures ShiftedDown(s[o..o + len + 1], r[o + 1..o + len + 1], Pow2(sh), Pow2(16 - sh))
    ensures OnlyWindow(s, r, o + 1, len)
  {
    hide Pow2, UpDigit;
    var a, b := s[o..o + len + 1], r[o + 1..o + len + 1];
    forall i | 0 <= i < |b| ensures b[i] == UpDigit(a[i], a[i + 1], Pow2(16 - sh), Pow2(sh)) {
      assert b[i] == r[o + 1 + i] && a[i] == s[o + i] && a[i + 1] == s[o + i + 1];
    }
  }

  lemma WindowIs(p: array<int>, o: nat, n: nat)
    requires o + n <= p.Length
    ensures Window(p, o, n) == p[o..o + n]
  {
  }

  /** The final loop: divides the number in p[o..o + len], whose leading digit is zero, by 2^sh. */
  method ShiftRight(p: array<int>, o: nat, len: nat, sh: nat)
    requires o + len + 1 <= p.Length && Digits(Window(p, o, len + 1)) && p[o] == 0
    requires sh <= 15
    modifies p
    ensures Digits(Window(p, o, len + 1)) && p[o] == 0
    ensures Val(Window(p, o + 1, len)) == Shr(Val(old(Window(p, o, len + 1))), sh)
    ensures OnlyWindow(old(p[..]), p[..], o, len + 1)
  {
    hide Pow2, Val, Shr;
    ghost var s := Window(p, o, len + 1);
    ShiftRightDigits(p, o, len, sh);
    ghost var r := Window(p, o + 1, len);
    p[o] := 0;
    assert Window(p, o + 1, len) == r && Window(p, o, len + 1) == [0] + r;
    ShiftedDownIs(s, r, sh);
  }

  lemma ShiftedDownIs(s: seq<int>, r: seq<int>, sh: nat)
    requires Digits(s) && sh <= 15 && ShiftedDown(s, r, Pow2(sh), Pow2(16 - sh)) && s[0] == 0
    ensures Val(r) == Shr(Val(s), sh)
  {
    hide Pow2, Val, UpDigit;
    ShiftFactors(sh);
    ShiftedDownValue(s, r, Pow2(sh), Pow2(16 - sh));
    QuotientByRemainder(Val(s), Val(r), s[|r|] % Pow2(sh), Pow2(sh));
  }

  lemma QuotientByRemainder(v: int, w: int, l: int, d: int)
    requires d > 0 && v == w * d + l && 0 <= l < d
    ensures w == v / d && l == v % d
  {
    assert (v / d - w) * d == l - v % d;
    assert -d < l - v % d < d;
    var k := v / d - w;
    if k >= 1 {
      MulMonotone(1, k, d);
      assert false;
    } else if k <= -1 {
      MulMonotone(k, -1, d);
      assert false;
    }
  }

  // ---------------------------------------------------------------------------------------------
  // __qdivrem

  datatype QuotRem = QuotRem(quotient: u64, remainder: u64)

  // u[1..4] are the base-2^16 digits of x.
  method LoadDigits(p: array<int>, x: u64)
    requires p.Length == 5
    modifies p
    ensures p[0] == old(p[0]) && Digits(Window(p, 1, 4)) && Val(Window(p, 1, 4)) == x
  {
    var high, low := x / 0x1_0000_0000, x % 0x1_0000_0000;
    p[1] := HHalf(high);
    p[2] := LHalf(high);
    p[3] := HHalf(low);
    p[4] := LHalf(low);
    ValFour(Window(p, 1, 4));
  }

  method StoreDigits(p: array<int>) returns (x: u64)
    requires p.Length == 5 && Digits(Window(p, 1, 4))
    ensures x == Val(Window(p, 1, 4))
  {
    hide Or;
    ghost var s := Window(p, 1, 4);
    assert s[0] == p[1] && s[1] == p[2] && s[2] == p[3] && s[3] == p[4];
    CombineIs(p[1], p[2]);
    CombineIs(p[3], p[4]);
    ValFour(s);
    x := Combine(p[1], p[2]) * 0x1_0000_0000 + Combine(p[3], p[4]);
  }

  // Exercise 16: division by a single digit.
  method ShortDivide(u: array<int>, t: int) returns (quotRem: QuotRem)
    requires u.Length == 5 && Digits(Window(u, 1, 4)) && 0 < t < 0x1_0000
    ensures Divides(Val(Window(u, 1, 4)), t, quotRem.quotient, quotRem.remainder)
  {
    hide Or, Pow2;
    ghost var s := Window(u, 1, 4);
    assert s[0] == u[1] && s[1] == u[2] && s[2] == u[3] && s[3] == u[4];
    var q1 := u[1] / t;
    var r1 := u[1] % t;
    DivisionBound(u[1], t);
    var q2, r2 := ShortStep(r1, u[2], t);
    var q3, r3 := ShortStep(r2, u[3], t);
    var q4, r4 := ShortStep(r3, u[4], t);
    CombineIs(q1, q2);
    CombineIs(q3, q4);
    ValFour(s);
    var quotient := Combine(q1, q2) * 0x1_0000_0000 + Combine(q3, q4);
    ShortAlgebra(s[0], s[1], s[2], s[3], q1, q2, q3, q4, r1, r2, r3, r4, t);
    quotRem := QuotRem(quotient, r4);
  }

  method ShortStep(r: int, digit: int, t: int) returns (q: int, r': int)
    requires 0 <= r < t < 0x1_0000 && 0 <= digit < 0x1_0000
    ensures 0 <= q < 0x1_0000 && 0 <= r' < t && r * 0x1_0000 + digit == q * t + r'
  {
    CombineIs(r, digit);
    var rbj := Combine(r, digit);
    DivisionBound(rbj, t);
    q := rbj / t;
    r' := rbj % t;
  }

  lemma ShortAlgebra(u1: int, u2: int, u3: int, u4: int, q1: int, q2: int, q3: int, q4: int,
                     r1: int, r2: int, r3: int, r4: int, t: int)
    requires u1 == q1 * t + r1 && r1 * 0x1_0000 + u2 == q2 * t + r2
    requires r2 * 0x1_0000 + u3 == q3 * t + r3 && r3 * 0x1_0000 + u4 == q4 * t + r4
    ensures u1 * 0x1_0000_0000_0000 + u2 * 0x1_0000_0000 + u3 * 0x1_0000 + u4
         == ((q1 * 0x1_0000 + q2) * 0x1_0000_0000 + (q3 * 0x1_0000 + q4)) * t + r4
  {
    assert ((q1 * 0x1_0000 + q2) * 0x1_0000_0000 + (q3 * 0x1_0000 + q4)) * t
        == (q1 * t) * 0x1_0000_0000_0000 + (q2 * t) * 0x1_0000_0000 + (q3 * t) * 0x1_0000 + q4 * t;
  }

  // D1: the shift that brings the leading divisor digit to at least half the base.
  method NormalShift(v1: int) returns (d: nat)
    requires 0 < v1 < 0x1_0000
    ensures d <= 15 && 0x8000 <= v1 * Pow2(d) < 0x1_0000
  {
    hide Pow2;
    d := 0;
    var t := v1;
    Pow2Zero();
    while t < 0x8000
      invariant d <= 15 && t == v1 * Pow2(d) && Pow2(d) <= t < 0x1_0000
      decreases 0x1_0000 - t
    {
      Pow2Next(v1, d);
      Pow2Fifteen();
      t := Wrap(t * 2);
      d := d + 1;
    }
  }

  lemma Pow2Next(x: int, d: nat)
    ensures Pow2(d + 1) == 2 * Pow2(d) && x * Pow2(d + 1) == 2 * (x * Pow2(d))
  {
  }

  lemma Pow2Fifteen()
    ensures Pow2(15) == 0x8000
  {
    Pow2Sixteen();
    assert Pow2(16) == 2 * Pow2(15);
  }

  // What Algorithm D computes from the scaled operands, in terms of the operands.
  lemma Unscale(u: int, v: int, d: nat, q: int, r: int)
    requires Divides(u * Pow2(d), v * Pow2(d), q, r)
    ensures Divides(u, v, q, Shr(r, d))
  {
    hide Pow2;
    var f, k := Pow2(d), u - q * v;
    assert q * (v * f) == (q * v) * f;
    MulDistribute(u, q * v, f);
    assert r == k * f;
    if k < 0 { MulMonotone(k, -1, f); assert false; }
    if k >= v { MulMonotone(v, k, f); assert false; }
    QuotientByRemainder(r, k, 0, f);
  }

  // After scaling, the leading n digits of the dividend are less than the divisor.
  lemma ScaledLeading(us: seq<int>, vs: seq<int>, n: nat, u: int, v: int, v1: int, f: int)
    requires 1 <= n <= |us| && |vs| == n && Digits(us) && Digits(vs) && f > 0
    requires Val(us) == u * f && u < BPow(|us| - 1)
    requires Val(vs) == v * f && v >= v1 * BPow(n - 1) && v1 >= 1
    ensures Val(us[..n]) < Val(vs) && vs[0] > 0
  {
    hide Val, BPow;
    ValLeading(us);
    ValLeading(vs);
    ValLeading(us[..n]);
    LessFactor(us[0], f, u, BPow(|us| - 1));
    assert us[0] < f;
    ScaledDivisorLeading(vs[0], v, v1, f, BPow(n - 1));
    MulMonotone(us[..n][0] + 1, vs[0], BPow(n - 1));
  }

  lemma LessFactor(x: int, f: int, u: int, p: int)
    requires x * p <= u * f && u < p && f > 0 && p > 0
    ensures x < f
  {
    MulMonotone(u + 1, p, f);
    MulDistribute(u, 1, f);
    if x >= f {
      MulMonotone(f, x, p);
      assert false;
    }
  }

  lemma ScaledDivisorLeading(x: int, v: int, v1: int, f: int, p: int)
    requires v * f < (x + 1) * p && v >= v1 * p && v1 >= 1 && f > 0 && p > 0
    ensures x >= f
  {
    MulMonotone(v1 * p, v, f);
    MulMonotone(1, v1, p * f);
    assert (v1 * p) * f == v1 * (p * f);
    if x < f {
      MulMonotone(x + 1, f, p);
      assert false;
    }
  }

  lemma RestBound(s: seq<int>, k: nat)
    requires k <= |s| && Digits(s)
    ensures Val(s[k..]) >= 0
  {
    hide Val;
    ValBound(s[k..]);
  }

  // The end of the loop: nothing of the dividend is left but the remainder.
  lemma ProgressDone(us: seq<int>, qs: seq<int>, whole: int, d: int, m: nat, n: nat)
    requires Progress(us, qs, whole, d, m, n) && |qs| == m + 1
    ensures Divides(whole, d, Val(qs), Val(us[m + 1..]))
    ensures forall k :: 0 <= k <= m ==> us[k] == 0
  {
    hide Val, Digits, PartialQuotient, Divides, BPow;
    assert us[m + 1..m + 1 + n] == us[m + 1..];
    RestBound(us, m + 1);
    EndQuotient(whole, Val(qs), d, Val(us[m + 1..]));
  }

  // Leading zero digits do not count.
  lemma SkipZeros(s: seq<int>, k: nat)
    requires k <= |s| && forall i :: 0 <= i < k ==> s[i] == 0
    ensures Val(s) == Val(s[k..])
  {
    assert s == s[..k] + s[k..];
    ValConcat(s[..k], s[k..]);
    ValZeros(s[..k]);
  }

  // D1: both operands are scaled, so that the leading digit of the divisor is at least half the base.
  method Normalise(u: array<int>, v: array<int>, uo: nat, vo: nat, m: nat, n: nat, ghost uq: int, ghost vq: int) returns (d: nat)
    requires u != v && u.Length == v.Length == 5 && uo + m + n == 4 && vo + n == 4 && n >= 2
    requires Digits(Window(u, uo, m + n + 1)) && u[uo] == 0 && Val(Window(u, uo, m + n + 1)) == uq
    requires Digits(Window(v, vo + 1, n)) && v[vo + 1] > 0 && Val(Window(v, vo + 1, n)) == vq
    modifies u, v
    ensures d <= 15 && Digits(Window(u, uo, m + n + 1)) && Digits(Window(v, vo + 1, n)) && v[vo + 1] > 0
    ensures Val(Window(u, uo, m + n + 1)) == uq * Pow2(d) && Val(Window(v, vo + 1, n)) == vq * Pow2(d)
    ensures Val(Window(u, uo, n)) < Val(Window(v, vo + 1, n))
    ensures OnlyWindow(old(u[..]), u[..], uo, m + n + 1)
  {
    hide Val, BPow, Pow2, Shr;
    ghost var v1, us0, vs0 := v[vo + 1], Window(u, uo, m + n + 1), Window(v, vo + 1, n);
    d := NormalShift(v[vo + 1]);
    LeadingZeroBound(us0);
    ValLeading(vs0);
    if d > 0 {
      ShiftLeft(u, uo, m + n, d);
      ShiftLeft(v, vo + 1, n - 1, d);
    } else {
      Pow2Zero();
    }
    ghost var us, vs := Window(u, uo, m + n + 1), Window(v, vo + 1, n);
    ScaledLeading(us, vs, n, uq, vq, v1, Pow2(d));
    assert us[..n] == Window(u, uo, n);
  }

  // Algorithm D proper, once the digits have been counted: u starts at uo, with m + n digits after a
  // zero, and v at vo, with n.
  method AlgorithmD(u: array<int>, v: array<int>, q: array<int>, uo: nat, vo: nat, m: nat, n: nat,
                    ghost uq: int, ghost vq: int)
    requires u != v && v != q && u != q && u.Length == v.Length == q.Length == 5
    requires uo + m + n == 4 && vo + n == 4 && n >= 2
    requires Digits(Window(u, uo, m + n + 1)) && u[uo] == 0 && Val(Window(u, uo, m + n + 1)) == uq
    requires Digits(Window(v, vo + 1, n)) && v[vo + 1] > 0 && Val(Window(v, vo + 1, n)) == vq
    modifies u, v, q
    ensures Digits(Window(q, 4 - m, m + 1)) && Digits(Window(u, uo, m + n + 1))
    ensures forall k :: uo <= k <= uo + m ==> u[k] == 0
    ensures Divides(uq, vq, Val(Window(q, 4 - m, m + 1)), Val(Window(u, uo + m + 1, n)))
    ensures OnlyWindow(old(u[..]), u[..], uo, m + n + 1) && OnlyWindow(old(q[..]), q[..], 4 - m, m + 1)
  {
    hide Val, BPow, Divides, Pow2, Shr, PartialQuotient, Digits;
    var d := Normalise(u, v, uo, vo, m, n, uq, vq);
    ghost var f := Pow2(d);
    DivideLoop(u, v, q, uo, vo, 4 - m, m, n);
    ghost var us', qs := Window(u, uo, m + n + 1), Window(q, 4 - m, m + 1);
    ProgressDone(us', qs, uq * f, vq * f, m, n);
    assert us'[m + 1..] == Window(u, uo + m + 1, n);
    Unscale(uq, vq, d, Val(qs), Val(us'[m + 1..]));
    Denormalise(u, uo, m, n, d);
  }

  // Undoes the shift on the remainder.
  method Denormalise(u: array<int>, uo: nat, m: nat, n: nat, d: nat)
    requires uo + m + n + 1 == u.Length && d <= 15
    requires Digits(Window(u, uo, m + n + 1)) && forall k :: uo <= k <= uo + m ==> u[k] == 0
    modifies u
    ensures Digits(Window(u, uo, m + n + 1)) && forall k :: uo <= k <= uo + m ==> u[k] == 0
    ensures Val(Window(u, uo + m + 1, n)) == Shr(old(Val(Window(u, uo + m + 1, n))), d)
    ensures OnlyWindow(old(u[..]), u[..], uo, m + n + 1)
  {
    hide Val, Shr, BPow, OnlyWindow, Digits, Window;
    WindowIs(u, uo + m + 1, n);
    ShrZero(old(Val(Window(u, uo + m + 1, n))));
    OnlySame(u[..], uo, m + n + 1);
    if d > 0 {
      ghost var u0 := u[..];
      WindowIs(u, uo, m + n + 1);
      WindowIs(u, uo + m, n + 1);
      TailOf(u0, uo, m, n);
      ShiftRight(u, uo + m, n, d);
      OnlyTail(u0, u[..], uo, m, n + 1);
      WindowIs(u, uo, m + n + 1);
      WindowIs(u, uo + m, n + 1);
      TailDigits(u0[uo..uo + m + n + 1], u[uo..uo + m + n + 1], m);
    }
  }

  // The last digits of a window, the first of which is zero.
  lemma TailOf(s: seq<int>, o: nat, m: nat, n: nat)
    requires o + m + n + 1 <= |s| && Digits(s[o..o + m + n + 1]) && s[o + m] == 0
    ensures Digits(s[o + m..o + m + n + 1]) && Val(s[o + m..o + m + n + 1]) == Val(s[o + m + 1..o + m + n + 1])
  {
    hide Val;
    var w := s[o + m..o + m + n + 1];
    assert forall k :: 0 <= k < |w| ==> w[k] == s[o..o + m + n + 1][m + k];
    SkipZeros(w, 1);
    assert w[1..] == s[o + m + 1..o + m + n + 1];
  }

  lemma OnlySame(s: seq<int>, o: nat, n: nat)
    ensures OnlyWindow(s, s, o, n)
  {
  }

  // A change in the tail of a window is a change in the window.
  lemma OnlyTail(s: seq<int>, r: seq<int>, o: nat, m: nat, n: nat)
    requires OnlyWindow(s, r, o + m, n) && o + m + n <= |s|
    ensures OnlyWindow(s, r, o, m + n) && |r| == |s| && forall k :: 0 <= k < o + m ==> r[k] == s[k]
  {
  }

  lemma TailDigits(w: seq<int>, r: seq<int>, m: nat)
    requires Digits(w) && |r| == |w| && m <= |w| && Digits(r[m..]) && forall k :: 0 <= k < m ==> r[k] == w[k]
    ensures Digits(r)
  {
    forall k | 0 <= k < |r| ensures 0 <= r[k] < 0x1_0000 {
      if k >= m {
        assert r[k] == r[m..][k - m];
      }
    }
  }

  lemma LeadingZeroBound(s: seq<int>)
    requires s != [] && Digits(s) && s[0] == 0
    ensures Val(s) < BPow(|s| - 1)
  {
    ValLeading(s);
  }

  lemma ShrZero(x: int)
    ensures Shr(x, 0) == x
  {
  }

  lemma Pow2Zero()
    ensures Pow2(0) == 1
  {
  }

  // Leading zeros bound a number from above, and a leading digit from below.
  lemma BelowPower(s: seq<int>, k: nat)
    requires Digits(s) && k <= |s| && forall i :: 0 <= i < k ==> s[i] == 0
    ensures Val(s) < BPow(|s| - k)
  {
    hide Val, BPow;
    SkipZeros(s, k);
    ValBound(s[k..]);
  }

  lemma AbovePower(s: seq<int>, k: nat)
    requires Digits(s) && k < |s| && s[k] > 0 && forall i :: 0 <= i < k ==> s[i] == 0
    ensures Val(s) >= BPow(|s| - k - 1)
  {
    hide Val, BPow;
    SkipZeros(s, k);
    ValLeading(s[k..]);
    MulMonotone(1, s[k], BPow(|s| - k - 1));
  }

  // A number with fewer significant digits is smaller.
  lemma FewerDigits(s: seq<int>, t: seq<int>, k: nat, n: nat)
    requires |s| == 4 && |t| == 4 && Digits(s) && Digits(t)
    requires k <= 4 && n <= 4 && (forall i :: 0 <= i < k ==> s[i] == 0)
    requires n >= 1 && t[4 - n] > 0
    requires Val(s) >= Val(t) && (forall i :: 0 <= i < 4 - n ==> t[i] == 0)
    ensures k <= 4 - n
  {
    hide Val, BPow, Digits;
    BelowPower(s, k);
    AbovePower(t, 4 - n);
    if k > 4 - n {
      BPowMonotone(4 - k, n - 1);
    }
  }

  // What division means: nothing by zero, otherwise the quotient and the remainder of the integers.
  ghost function Division(u: u64, v: u64): Option<QuotRem> {
    if v == 0 then None else (DivisionBound64(u, v); Some(QuotRem(u / v, u % v)))
  }

  lemma DivisionBound64(u: int, v: int)
    requires 0 <= u && 0 < v
    ensures 0 <= u / v <= u && 0 <= u % v < v
  {
    QuotientBound(u, v, u / v);
  }

  lemma DivisionIs(u: u64, v: u64, quotRem: QuotRem)
    requires Divides(u, v, quotRem.quotient, quotRem.remainder)
    ensures Division(u, v) == Some(quotRem)
  {
    QuotientByRemainder(u, quotRem.quotient, quotRem.remainder, v);
  }

  // A divisor whose leading digits are zero is its last digit.
  lemma OneDigit(v: array<int>)
    requires v.Length == 5 && Digits(Window(v, 1, 4)) && v[1] == v[2] == v[3] == 0
    ensures Val(Window(v, 1, 4)) == v[4] && 0 <= v[4] < 0x1_0000
  {
    hide Val, BPow;
    var vs := Window(v, 1, 4);
    assert vs[3] == v[4] && vs[0] == vs[1] == vs[2] == 0;
    SkipZeros(vs, 3);
    ValOne(vs[3..]);
  }

  /** __qdivrem: for all 64-bit operands the quotient and the remainder; division by zero traps. */
  method QDivRem(uq: u64, vq: u64) returns (res: Option<QuotRem>)
    ensures res == Division(uq, vq)
  {
    hide Val, BPow, Or, Pow2, Divides, Division;
    DivisionByZero(uq);
    if vq == 0 {
      return None;
    }
    if uq < vq {
      DividesSmaller(uq, vq);
      DivisionIs(uq, vq, QuotRem(0, uq));
      return Some(QuotRem(0, uq));
    }
    var u, v, q := new int[5], new int[5], new int[5];
    u[0] := 0;
    LoadDigits(u, uq);
    LoadDigits(v, vq);
    ghost var us, vs := Window(u, 1, 4), Window(v, 1, 4);
    var n, vo := 4, 0;
    while v[vo + 1] == 0
      invariant 2 <= n <= 4 && vo + n == 4
      invariant u[0] == 0 && Window(u, 1, 4) == us && Window(v, 1, 4) == vs
      invariant forall k :: 0 < k <= vo ==> v[k] == 0
      decreases n
    {
      n := n - 1;
      if n == 1 {
        OneDigit(v);
        var quotRem := ShortDivide(u, v[vo + 2]);
        DivisionIs(uq, vq, quotRem);
        return Some(quotRem);
      }
      vo := vo + 1;
    }
    var quotRem := LongDivide(u, v, q, vo, n, uq, vq);
    DivisionIs(uq, vq, quotRem);
    res := Some(quotRem);
  }

  lemma DivisionByZero(u: u64)
    ensures Division(u, 0) == None
  {
  }

  lemma DividesSmaller(u: int, v: int)
    requires 0 <= u < v
    ensures Divides(u, v, 0, u)
  {
  }

  // The rest of __qdivrem, for a divisor of n > 1 digits.
  method LongDivide(u: array<int>, v: array<int>, q: array<int>, vo: nat, n: nat, ghost uq: u64, ghost vq: u64)
    returns (quotRem: QuotRem)
    requires u != v && v != q && u != q && u.Length == v.Length == q.Length == 5
    requires vo + n == 4 && n >= 2 && 0 < vq <= uq
    requires u[0] == 0 && Digits(Window(u, 1, 4)) && Val(Window(u, 1, 4)) == uq
    requires Digits(Window(v, 1, 4)) && Val(Window(v, 1, 4)) == vq
    requires v[vo + 1] > 0 && forall k :: 0 < k <= vo ==> v[k] == 0
    modifies u, v, q
    ensures Divides(uq, vq, quotRem.quotient, quotRem.remainder)
  {
    hide Val, BPow, Divides;
    ghost var us, vs := Window(u, 1, 4), Window(v, 1, 4);
    var m, uo := 4 - n, 0;
    while u[uo + 1] == 0
      invariant 0 <= m && uo + m + n == 4
      invariant forall k :: 0 <= k <= uo ==> u[k] == 0
      invariant Window(u, 1, 4) == us && Window(v, 1, 4) == vs
      decreases m
    {
      FewerDigits(us, vs, uo + 1, n);
      m := m - 1;
      uo := uo + 1;
    }
    var i := 4 - m;
    while i > 0
      invariant 0 <= i <= 4 - m
      invariant Window(u, 1, 4) == us && Window(v, 1, 4) == vs && u[0] == 0
      invariant forall k :: i <= k < 4 - m ==> q[k] == 0
    {
      i := i - 1;
      q[i] := 0;
    }
    SignificantDigits(u, uo, m + n);
    SkipZeros(vs, vo);
    assert vs[vo..] == Window(v, vo + 1, n);
    AlgorithmD(u, v, q, uo, vo, m, n, uq, vq);
    var quotient, remainder := ReadResults(u, q, uo, m, n);
    quotRem := QuotRem(quotient, remainder);
  }

  lemma SignificantDigits(u: array<int>, uo: nat, len: nat)
    requires u.Length == 5 && uo + len == 4 && forall k :: 0 <= k <= uo ==> u[k] == 0
    requires Digits(Window(u, 1, 4))
    ensures Digits(Window(u, uo, len + 1)) && Val(Window(u, uo, len + 1)) == Val(Window(u, 1, 4))
  {
    hide Val;
    var us, w := Window(u, 1, 4), Window(u, uo, len + 1);
    SkipZeros(us, uo);
    SkipZeros(w, 1);
    assert w[1..] == us[uo..];
    forall k | 0 <= k < |w| ensures 0 <= w[k] < 0x1_0000 {
      assert k >= 1 ==> w[k] == us[uo + k - 1];
    }
  }

  lemma ValOne(s: seq<int>)
    requires |s| == 1
    ensures Val(s) == s[0]
  {
    assert Val(s) == s[0] * BPow(0) + Val(s[1..]);
  }

  // COMBINE over the four low digits of both spaces, of which the leading ones are zero.
  method ReadResults(u: array<int>, q: array<int>, uo: nat, m: nat, n: nat) returns (quotient: u64, remainder: u64)
    requires u.Length == q.Length == 5 && uo + m + n == 4 && n >= 2
    requires Digits(Window(u, uo, m + n + 1)) && Digits(Window(q, 4 - m, m + 1))
    requires forall k :: 0 <= k <= uo + m ==> u[k] == 0
    requires forall k :: 0 <= k < 4 - m ==> q[k] == 0
    ensures quotient == Val(Window(q, 4 - m, m + 1)) && remainder == Val(Window(u, uo + m + 1, n))
  {
    hide Val;
    ghost var us, qs := Window(u, 1, 4), Window(q, 1, 4);
    assert qs[3 - m..] == Window(q, 4 - m, m + 1) && us[uo + m..] == Window(u, uo + m + 1, n);
    SkipZeros(qs, 3 - m);
    SkipZeros(us, uo + m);
    ghost var uw := Window(u, uo, m + n + 1);
    forall k | 0 <= k < 4 ensures 0 <= us[k] < 0x1_0000 && 0 <= qs[k] < 0x1_0000 {
      assert k >= 3 - m ==> qs[k] == Window(q, 4 - m, m + 1)[k - (3 - m)];
      assert k + 1 >= uo ==> us[k] == uw[k + 1 - uo];
    }
    remainder := StoreDigits(u);
    quotient := StoreDigits(q);
  }

  // ---------------------------------------------------------------------------------------------
  // The entry points

  type i64 = x: int | -0x8000_0000_0000_0000 <= x < 0x8000_0000_0000_0000

  function ToUnsigned(x: i64): u64 {
    if x < 0 then x as int + 0x1_0000_0000_0000_0000 else x
  }

  function ToSigned(x: u64): i64 {
    if x < 0x8000_0000_0000_0000 then x else x as int - 0x1_0000_0000_0000_0000
  }

  // Negation of a uint64_t.
  function Negate(x: u64): u64 {
    if x == 0 then 0 else 0x1_0000_0000_0000_0000 - x as int
  }

  function Abs(x: int): int {
    if x < 0 then -x else x
  }

  // Division that rounds toward zero.
  function Truncated(a: int, b: int): int
    requires b != 0
  {
    if (a < 0) != (b < 0) then -(Abs(a) / Abs(b)) else Abs(a) / Abs(b)
  }

  /** __divdi3 is division toward zero, except that the one quotient that does not fit wraps around. */
  method DivDi3(a: i64, b: i64) returns (res: Option<i64>)
    ensures b == 0 <==> res == None
    ensures b != 0 ==> (res == Some(Truncated(a, b)) <==> !(a == -0x8000_0000_0000_0000 && b == -1))
    ensures a == -0x8000_0000_0000_0000 && b == -1 ==> res == Some(a)
  {
    var ua, ub := ToUnsigned(a), ToUnsigned(b);
    var neg := false;
    if a < 0 {
      ua := Negate(ua);
      neg := true;
    }
    if b < 0 {
      ub := Negate(ub);
      neg := !neg;
    }
    assert ua == Abs(a) && ub == Abs(b);
    var uq := QDivRem(ua, ub);
    if uq == None {
      return None;
    }
    var q := uq.value.quotient;
    QuotientBound(ua, ub, q);
    res := Some(ToSigned(if neg then Negate(q) else q));
  }

  lemma QuotientBound(u: int, v: int, q: int)
    requires 0 <= u && v > 0 && q == u / v
    ensures 0 <= q <= u
    ensures v > 1 && u > 0 ==> q < u
    ensures v == 1 ==> q == u
  {
    assert u == q * v + u % v && 0 <= u % v < v;
    if q < 0 {
      MulMonotone(q, -1, v);
      assert false;
    }
    MulMonotone(1, v, q);
    if v > 1 {
      MulMonotone(2, v, q);
    }
  }

  method UDivDi3(a: u64, b: u64) returns (res: Option<u64>)
    ensures res == if b == 0 then None else Some(a / b)
  {
    var r := QDivRem(a, b);
    res := if r == None then None else Some(r.value.quotient);
  }

  method UModDi3(a: u64, b: u64) returns (res: Option<u64>)
    ensures res == if b == 0 then None else Some(a % b)
  {
    var r := QDivRem(a, b);
    res := if r == None then None else Some(r.value.remainder);
  }
}
