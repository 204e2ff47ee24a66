/** Fixed-length numbers written in a positional base, most significant digit
    first. The charset-bank odometer counts with them, and the fill
    generator's progress measure is one. */
module Radix {

  function Pow(b: nat, n: nat): (r: nat)
    ensures b > 0 ==> r > 0
  {
    if n == 0 then 1 else Pow(b, n - 1) * b
  }

  /** Every digit is below the base. */
  predicate IsDigits(ds: seq<nat>, b: nat) {
    forall i :: 0 <= i < |ds| ==> ds[i] < b
  }

  /** The number the digits denote, read most significant first (Horner). */
  function Value(ds: seq<nat>, b: nat): nat {
    if ds == [] then 0 else Value(ds[..|ds| - 1], b) * b + ds[|ds| - 1]
  }

  function Zeros(n: nat): (r: seq<nat>)
    ensures |r| == n && forall i :: 0 <= i < n ==> r[i] == 0
  {
    seq(n, _ => 0)
  }

  /** The n lowest digits of v in base b. */
  function DigitsOf(v: nat, b: nat, n: nat): (ds: seq<nat>)
    requires b > 0
    ensures |ds| == n && IsDigits(ds, b)
    decreases n
  {
    if n == 0 then []
    else
      var qr := DivModNat(v, b);
      DigitsOf(qr.0, b, n - 1) + [qr.1]
  }

  /** n digits below b denote a number below b^n. */
  lemma {:induction false} ValueBound(ds: seq<nat>, b: nat)
    requires IsDigits(ds, b)
    ensures Value(ds, b) < Pow(b, |ds|)
  {
    if ds != [] {
      var pre := ds[..|ds| - 1];
      ValueBound(pre, b);
      MulLe(Value(pre, b) + 1, Pow(b, |pre|), b);
      assert (Value(pre, b) + 1) * b == Value(pre, b) * b + b;
      assert Value(ds, b) == Value(pre, b) * b + ds[|ds| - 1] && ds[|ds| - 1] < b;
    }
  }

  lemma MulLe(x: nat, y: nat, b: nat)
    requires x <= y
    ensures x * b <= y * b
  {
  }

  /** Euclidean quotient and remainder of naturals. */
  function DivModNat(v: nat, b: nat): (qr: (nat, nat))
    requires b > 0
    ensures qr.0 == v / b && qr.1 == v % b && qr.1 < b
  {
    DivMod(v, b);
    (v / b, v % b)
  }

  lemma DivMod(v: nat, b: nat)
    requires b > 0
    ensures 0 <= v / b && 0 <= v % b < b && v == v / b * b + v % b
  {
  }

  /** Division by b undoes q * b + r for a remainder r below b. */
  lemma DivModUnique(q: nat, r: nat, b: nat)
    requires r < b
    ensures (q * b + r) / b == q && (q * b + r) % b == r
  {
    var v := q * b + r;
    DivMod(v, b);
    var q' := v / b;
    if q' < q {
      MulLe(q' + 1, q, b);
    } else if q < q' {
      MulLe(q + 1, q', b);
    }
  }

  /** Lexicographic order: digit strings that agree before position p and
      differ there compare as their digits at p, whatever follows. */
  lemma {:induction false} ValueLexLess(ds: seq<nat>, es: seq<nat>, b: nat, p: nat)
    requires |ds| == |es| && p < |ds| && IsDigits(ds, b) && IsDigits(es, b)
    requires ds[..p] == es[..p] && es[p] < ds[p]
    ensures Value(es, b) < Value(ds, b)
  {
    var n := |ds| - 1;
    var dp, ep := ds[..n], es[..n];
    if p == n {
      assert dp == ds[..p] && ep == es[..p];
    } else {
      assert dp[..p] == ds[..p] && ep[..p] == es[..p];
      ValueLexLess(dp, ep, b, p);
      MulLe(Value(ep, b) + 1, Value(dp, b), b);
      assert (Value(ep, b) + 1) * b == Value(ep, b) * b + b;
      assert Value(es, b) == Value(ep, b) * b + es[n] && es[n] < b;
      assert Value(ds, b) == Value(dp, b) * b + ds[n];
    }
  }

  /** Appending digits shifts the prefix by the base power of the suffix length. */
  lemma {:induction false} ValueAppend(xs: seq<nat>, ys: seq<nat>, b: nat)
    ensures Value(xs + ys, b) == Value(xs, b) * Pow(b, |ys|) + Value(ys, b)
    decreases |ys|
  {
    if ys == [] {
      assert xs + ys == xs;
    } else {
      var n := |ys| - 1;
      assert (xs + ys)[..|xs + ys| - 1] == xs + ys[..n];
      ValueAppend(xs, ys[..n], b);
      Regroup(Value(xs, b), Pow(b, n), Value(ys[..n], b), b, ys[n]);
    }
  }

  lemma Regroup(a: nat, p: nat, v: nat, b: nat, d: nat)
    ensures (a * p + v) * b + d == a * (p * b) + (v * b + d)
  {
  }

  /** One more digit multiplies by the base and adds it. */
  lemma ValueSnoc(pre: seq<nat>, d: nat, b: nat)
    ensures Value(pre + [d], b) == Value(pre, b) * b + d
  {
    assert (pre + [d])[..|pre|] == pre;
  }

  lemma {:induction false} ValueZeros(n: nat, b: nat)
    ensures Value(Zeros(n), b) == 0
  {
    if n > 0 {
      assert Zeros(n)[..n - 1] == Zeros(n - 1);
      ValueZeros(n - 1, b);
    }
  }

  /** n copies of the top digit denote b^n - 1. */
  lemma {:induction false} ValueTop(ds: seq<nat>, b: nat)
    requires b > 0 && forall i :: 0 <= i < |ds| ==> ds[i] == b - 1
    ensures Value(ds, b) + 1 == Pow(b, |ds|)
  {
    if ds != [] {
      ValueTop(ds[..|ds| - 1], b);
    }
  }

  /** DigitsOf and Value are inverse on numbers below b^n. */
  lemma {:induction false} ValueOfDigitsOf(v: nat, b: nat, n: nat)
    requires b > 0 && v < Pow(b, n)
    ensures Value(DigitsOf(v, b, n), b) == v
    decreases n
  {
    if n > 0 {
      var ds := DigitsOf(v, b, n);
      assert ds[..n - 1] == DigitsOf(v / b, b, n - 1);
      DivMod(v, b);
      var q := v / b;
      if Pow(b, n - 1) <= q {
        MulLe(Pow(b, n - 1), q, b);
      }
      ValueOfDigitsOf(q, b, n - 1);
    }
  }

  /** DigitsOf and Value are inverse on digit strings. */
  lemma {:induction false} DigitsOfValue(ds: seq<nat>, b: nat)
    requires b > 0 && IsDigits(ds, b)
    ensures DigitsOf(Value(ds, b), b, |ds|) == ds
  {
    if ds != [] {
      var n := |ds| - 1;
      var pre := ds[..n];
      var v := Value(ds, b);
      DivModUnique(Value(pre, b), ds[n], b);
      DigitsOfValue(pre, b);
      assert ds == pre + [ds[n]];
    }
  }

  /** The odometer step: raising the last digit that is not the top digit and
      zeroing the top digits after it adds one to the value. */
  lemma Carry(pre: seq<nat>, d: nat, k: nat, b: nat)
    requires b > 0 && d + 1 < b
    ensures Value(pre + [d] + seq(k, _ => b - 1), b) + 1 == Value(pre + [d + 1] + Zeros(k), b)
  {
    var tops: seq<nat> := seq(k, _ => b - 1);
    ValueAppend(pre + [d], tops, b);
    ValueAppend(pre + [d + 1], Zeros(k), b);
    ValueTop(tops, b);
    ValueZeros(k, b);
    ValueSnoc(pre, d, b);
    ValueSnoc(pre, d + 1, b);
    AddOneFactor(Value(pre + [d], b), Pow(b, k));
  }

  lemma AddOneFactor(x: nat, p: nat)
    ensures (x + 1) * p == x * p + p
  {
  }
}
