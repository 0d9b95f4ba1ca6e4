/**
 * Positional notation in an arbitrary base, as the Base58 codec uses it: digits are kept least
 * significant first while they are computed and written out most significant first.
 */
module Radix {

  /** Every element of `ds` is a digit of `base`. */
  predicate IsDigits(ds: seq<nat>, base: nat) {
    forall i :: 0 <= i < |ds| ==> ds[i] < base
  }

  /** The number written by `s`, most significant digit first. */
  function Value(s: seq<nat>, base: nat): nat {
    if |s| == 0 then 0 else Value(s[..|s| - 1], base) * base + s[|s| - 1]
  }

  /** The digits of `n`, least significant first and without a zero on top. */
  function Digits(n: nat, base: nat): seq<nat>
    requires base >= 2
    decreases n
  {
    if n == 0 then [] else [n % base] + Digits(n / base, base)
  }

  /** One pass of a running carry: multiply the digits by `factor` and add `carry`. */
  function MulAdd(ds: seq<nat>, factor: nat, carry: nat, base: nat): seq<nat>
    requires base >= 2
  {
    if |ds| == 0 then Digits(carry, base) else
      var t := carry + ds[0] * factor;
      [t % base] + MulAdd(ds[1..], factor, t / base, base)
  }

  function Reverse(s: seq<nat>): (r: seq<nat>)
    ensures |r| == |s|
    ensures forall i :: 0 <= i < |s| ==> r[i] == s[|s| - 1 - i]
  {
    if |s| == 0 then [] else Reverse(s[1..]) + [s[0]]
  }

  function LeadingZeros(s: seq<nat>): (z: nat)
    ensures z <= |s|
    ensures forall i :: 0 <= i < z ==> s[i] == 0
    ensures z < |s| ==> s[z] != 0
  {
    if |s| == 0 || s[0] != 0 then 0 else 1 + LeadingZeros(s[1..])
  }

  function Zeros(n: nat): (r: seq<nat>)
    ensures |r| == n
    ensures forall i :: 0 <= i < n ==> r[i] == 0
  {
    seq(n, i => 0)
  }

  /** Rewrite `s` from base `b1` to base `b2`, one leading zero for one leading zero. */
  function Convert(s: seq<nat>, b1: nat, b2: nat): seq<nat>
    requires b2 >= 2
  {
    Zeros(LeadingZeros(s)) + Reverse(Digits(Value(s, b1), b2))
  }

  lemma MulMonotone(a: nat, b: nat, c: nat)
    requires a <= b
    ensures a * c <= b * c
  {
    assert b * c == a * c + (b - a) * c;
  }

  lemma Distribute(a: nat, b: nat, c: nat)
    ensures (a + b) * c == a * c + b * c
  {
  }

  lemma CompareQuotients(q: nat, r: nat, p: nat, base: nat)
    requires r < base
    ensures q < p <==> q * base + r < base * p
  {
    if q < p {
      MulMonotone(q + 1, p, base);
      Distribute(q, 1, base);
    } else {
      MulMonotone(p, q, base);
    }
  }

  /** Quotient and remainder are determined by the identity they satisfy. */
  lemma DivMod(n: nat, q: nat, r: nat, base: nat)
    requires r < base && n == q * base + r
    ensures n / base == q && n % base == r
  {
    var q', r' := n / base, n % base;
    assert n == q' * base + r';
    CompareQuotients(q, r, q', base);
    CompareQuotients(q', r', q, base);
  }

  lemma {:induction false} DigitsProps(n: nat, base: nat)
    requires base >= 2
    ensures IsDigits(Digits(n, base), base)
    ensures n > 0 <==> |Digits(n, base)| > 0
    ensures n > 0 ==> Digits(n, base)[|Digits(n, base)| - 1] != 0
    decreases n
  {
    if n > 0 {
      DigitsProps(n / base, base);
    }
  }

  lemma DigitsUnfold(n: nat, base: nat)
    requires base >= 2
    ensures Digits(n, base) == if n == 0 then [] else [n % base] + Digits(n / base, base)
  {
  }

  lemma NoDigits(b1: nat, b2: nat)
    requires b2 >= 2
    ensures Value([], b1) == 0 && Digits(0, b2) == [] && Convert([], b1, b2) == []
  {
  }

  lemma MulAddEnd(factor: nat, carry: nat, base: nat)
    requires base >= 2
    ensures MulAdd([], factor, carry, base) == Digits(carry, base)
  {
  }

  lemma QuotientShrinks(n: nat, base: nat)
    requires base >= 2 && n > 0
    ensures n / base < n && n == (n / base) * base + n % base
  {
  }

  lemma DigitsStep(n: nat, base: nat) returns (q: nat, r: nat)
    requires base >= 2 && n > 0
    ensures q < n && r < base && n == q * base + r
    ensures Digits(n, base) == [r] + Digits(q, base)
  {
    q, r := n / base, n % base;
    QuotientShrinks(n, base);
  }

  lemma ReverseCons(d: nat, ds: seq<nat>)
    ensures Reverse([d] + ds) == Reverse(ds) + [d]
  {
    assert ([d] + ds)[1..] == ds;
  }

  lemma ValueSnoc(s: seq<nat>, d: nat, base: nat)
    ensures Value(s + [d], base) == Value(s, base) * base + d
  {
    assert (s + [d])[..|s|] == s;
  }

  /** Reading back the digits of `n` gives `n`. */
  lemma {:induction false} ValueOfDigits(n: nat, base: nat)
    requires base >= 2
    ensures Value(Reverse(Digits(n, base)), base) == n
    decreases n
  {
    if n > 0 {
      var q, r := DigitsStep(n, base);
      ValueOfDigits(q, base);
      ReverseCons(r, Digits(q, base));
      ValueSnoc(Reverse(Digits(q, base)), r, base);
    }
  }

  /** Numerals without a leading zero are unique. */
  lemma {:induction false} DigitsOfValue(s: seq<nat>, base: nat)
    requires base >= 2 && IsDigits(s, base)
    requires |s| > 0 ==> s[0] != 0
    ensures Reverse(Digits(Value(s, base), base)) == s
    ensures |s| > 0 ==> Value(s, base) > 0
  {
    if |s| > 0 {
      var front, d := s[..|s| - 1], s[|s| - 1];
      DigitsOfValue(front, base);
      var v := Value(front, base);
      if |front| > 0 {
        MulMonotone(1, v, base);
      }
      DivMod(Value(s, base), v, d, base);
      ReverseCons(d, Digits(v, base));
      assert s == front + [d];
    }
  }

  lemma {:induction false} ValueOfZerosPlus(z: nat, s: seq<nat>, base: nat)
    ensures Value(Zeros(z) + s, base) == Value(s, base)
    decreases z + |s|
  {
    var t := Zeros(z) + s;
    if |s| > 0 {
      assert t[..|t| - 1] == Zeros(z) + s[..|s| - 1];
      ValueOfZerosPlus(z, s[..|s| - 1], base);
    } else if z > 0 {
      assert t[..|t| - 1] == Zeros(z - 1) + s;
      ValueOfZerosPlus(z - 1, s, base);
    }
  }

  lemma MulAddCons(d: nat, ds: seq<nat>, factor: nat, carry: nat, base: nat)
    requires base >= 2
    ensures var t := carry + d * factor;
            MulAdd([d] + ds, factor, carry, base) == [t % base] + MulAdd(ds, factor, t / base, base)
  {
    assert ([d] + ds)[1..] == ds;
  }

  lemma CarryOut(d: nat, factor: nat, carry: nat, base: nat) returns (t: nat, u: nat, v: nat)
    requires base >= 2
    ensures t == carry + d * factor && u == t / base && v == t % base
    ensures t == u * base + v && v < base
  {
    t := carry + d * factor;
    u, v := t / base, t % base;
  }

  lemma Associate(a: nat, b: nat, c: nat)
    ensures a * (b * c) == (a * b) * c
  {
  }

  lemma DistributeLeft(c: nat, a: nat, b: nat)
    ensures c * (a + b) == c * a + c * b
  {
  }

  lemma ScaledNumeral(n: nat, q: nat, r: nat, factor: nat, carry: nat,
                                         t: nat, u: nat, v: nat, base: nat)
    requires factor >= 1 && n > 0
    requires n == q * base + r && t == carry + r * factor && t == u * base + v
    ensures factor * n + carry > 0
    ensures factor * n + carry == (factor * q + u) * base + v
  {
    MulMonotone(1, factor, n);
    DistributeLeft(factor, q * base, r);
    Associate(factor, q, base);
    Distribute(factor * q, u, base);
  }

  lemma DigitsCons(n: nat, q: nat, r: nat, base: nat)
    requires base >= 2 && n > 0 && r < base && n == q * base + r
    ensures Digits(n, base) == [r] + Digits(q, base)
  {
    DivMod(n, q, r, base);
  }

  /** The carry pass is exact: it turns the digits of `n` into the digits of `factor * n + carry`. */
  lemma {:induction false} MulAddIsExact(n: nat, factor: nat, carry: nat, base: nat)
    requires base >= 2 && factor >= 1
    ensures MulAdd(Digits(n, base), factor, carry, base) == Digits(factor * n + carry, base)
    decreases n
  {
    if n > 0 {
      var q, r := DigitsStep(n, base);
      var t, u, v := CarryOut(r, factor, carry, base);
      MulAddIsExact(q, factor, u, base);
      ScaledNumeral(n, q, r, factor, carry, t, u, v, base);
      DigitsCons(factor * n + carry, factor * q + u, v, base);
      MulAddCons(r, Digits(q, base), factor, carry, base);
    }
  }

  lemma {:induction false} LeadingZerosOf(z: nat, s: seq<nat>)
    requires |s| > 0 ==> s[0] != 0
    ensures LeadingZeros(Zeros(z) + s) == z
  {
    var t := Zeros(z) + s;
    if z > 0 {
      LeadingZerosOf(z - 1, s);
      assert t[1..] == Zeros(z - 1) + s;
    }
  }

  /** Changing base and changing back is the identity, leading zeros included. */
  lemma ConvertRoundTrip(s: seq<nat>, b1: nat, b2: nat)
    requires b1 >= 2 && b2 >= 2 && IsDigits(s, b1)
    ensures IsDigits(Convert(s, b1, b2), b2)
    ensures Convert(Convert(s, b1, b2), b2, b1) == s
  {
    hide Value, Digits;
    var z := LeadingZeros(s);
    var rest := s[z..];
    assert s == Zeros(z) + rest;
    ValueOfZerosPlus(z, rest, b1);
    var n := Value(rest, b1);
    DigitsProps(n, b2);
    var out := Reverse(Digits(n, b2));
    LeadingZerosOf(z, out);
    ValueOfZerosPlus(z, out, b2);
    ValueOfDigits(n, b2);
    DigitsOfValue(rest, b1);
  }

  // ---------------------------------------------------------------- lengths

  function Pow(b: nat, e: nat): nat {
    if e == 0 then 1 else b * Pow(b, e - 1)
  }

  lemma {:induction false} PowAdd(b: nat, x: nat, y: nat)
    ensures Pow(b, x + y) == Pow(b, x) * Pow(b, y)
  {
    if x > 0 {
      PowAdd(b, x - 1, y);
      Associate(b, Pow(b, x - 1), Pow(b, y));
    }
  }

  lemma {:induction false} PowMonotone(b: nat, x: nat, y: nat)
    requires b >= 1 && x <= y
    ensures 1 <= Pow(b, x) <= Pow(b, y)
    decreases y
  {
    if x < y {
      PowMonotone(b, x, y - 1);
      assert b * Pow(b, y - 1) >= Pow(b, y - 1);
    } else if x > 0 {
      PowMonotone(b, x - 1, x - 1);
      assert b * Pow(b, x - 1) >= 1;
    }
  }

  /** `n` needs at most `k` digits exactly when it is below `base` to the `k`. */
  lemma {:induction false} DigitCount(n: nat, base: nat, k: nat)
    requires base >= 2
    ensures |Digits(n, base)| <= k <==> n < Pow(base, k)
    decreases k
  {
    hide Digits;
    DigitsProps(n, base);
    if k > 0 && n > 0 {
      var q, r := DigitsStep(n, base);
      DigitCount(q, base, k - 1);
      CompareQuotients(q, r, Pow(base, k - 1), base);
    } else if k > 0 {
      PowMonotone(base, 0, k);
    }
  }

  lemma {:induction false} ValueBelowPow(s: seq<nat>, base: nat)
    requires IsDigits(s, base) && base >= 1
    ensures Value(s, base) < Pow(base, |s|)
  {
    if |s| > 0 {
      var front := s[..|s| - 1];
      ValueBelowPow(front, base);
      CompareQuotients(Value(front, base), s[|s| - 1], Pow(base, |front|), base);
    }
  }

  lemma {:induction false} ValueAbovePow(s: seq<nat>, base: nat)
    requires |s| > 0 && s[0] != 0
    ensures Value(s, base) >= Pow(base, |s| - 1)
  {
    if |s| > 1 {
      var front := s[..|s| - 1];
      ValueAbovePow(front, base);
      MulMonotone(Pow(base, |front| - 1), Value(front, base), base);
    }
  }
}
