/** Big-endian positional numerals in any base: the arithmetic under the base-32, byte, hex and decimal codecs. */
module Numerals {

  function Pow(b: nat, e: nat): nat {
    if e == 0 then 1 else Pow(b, e - 1) * b
  }

  /** The number a digit string spells, most significant digit first. */
  function Value(ds: seq<nat>, b: nat): nat {
    if ds == [] then 0 else Value(ds[..|ds| - 1], b) * b + ds[|ds| - 1]
  }

  /** `divmod(v, b)`, by repeated subtraction so that no proof depends on division by a variable. */
  function DivMod(v: nat, b: nat): (r: (nat, nat))
    requires b > 0
    ensures v == r.0 * b + r.1 && r.1 < b
  {
    if v < b then (0, v) else
      var (q, m) := DivMod(v - b, b);
      assert (q + 1) * b == q * b + b;
      (q + 1, m)
  }

  function Quot(v: nat, b: nat): nat
    requires b > 0
  {
    DivMod(v, b).0
  }

  function Rem(v: nat, b: nat): (r: nat)
    requires b > 0
    ensures r < b
  {
    DivMod(v, b).1
  }

  /** The `n` low digits of `v`. */
  function Digits(v: nat, n: nat, b: nat): (ds: seq<nat>)
    requires b > 0
    ensures |ds| == n
    ensures forall i | 0 <= i < n :: ds[i] < b
  {
    if n == 0 then [] else Digits(Quot(v, b), n - 1, b) + [Rem(v, b)]
  }

  lemma PowPositive(b: nat, e: nat)
    requires b > 0
    ensures Pow(b, e) > 0
  {
    if e > 0 {
      PowPositive(b, e - 1);
    }
  }

  lemma {:induction false} PowAdd(b: nat, m: nat, n: nat)
    ensures Pow(b, m + n) == Pow(b, m) * Pow(b, n)
  {
    if n == 0 {
    } else {
      PowAdd(b, m, n - 1);
      assert Pow(b, m) * Pow(b, n - 1) * b == Pow(b, m) * (Pow(b, n - 1) * b);
    }
  }

  lemma {:induction false} PowPow(b: nat, m: nat, n: nat)
    ensures Pow(Pow(b, m), n) == Pow(b, m * n)
  {
    if n == 0 {
    } else {
      PowPow(b, m, n - 1);
      assert m * n == m * (n - 1) + m;
      PowAdd(b, m * (n - 1), m);
    }
  }

  /** Quotient and remainder are unique. */
  lemma {:induction false} DivModSplit(x: nat, b: nat, d: nat)
    requires d < b
    ensures DivMod(x * b + d, b) == (x, d)
  {
    if x == 0 {
    } else {
      assert x * b + d - b == (x - 1) * b + d;
      DivModSplit(x - 1, b, d);
    }
  }

  lemma MulLess(x: nat, y: nat, b: nat, d: nat)
    requires x < y && d < b
    ensures x * b + d < y * b
  {
    assert (x + 1) * b <= y * b;
  }

  lemma QuotLess(v: nat, b: nat, m: nat)
    requires b > 0 && v < m * b
    ensures Quot(v, b) < m
  {
    var q := Quot(v, b);
    assert q >= m ==> q * b >= m * b;
  }

  lemma {:induction false} ValueOfDigits(v: nat, n: nat, b: nat)
    requires b > 0 && v < Pow(b, n)
    ensures Value(Digits(v, n, b), b) == v
  {
    if n == 0 {
    } else {
      QuotLess(v, b, Pow(b, n - 1));
      ValueOfDigits(Quot(v, b), n - 1, b);
      assert Digits(v, n, b)[..n - 1] == Digits(Quot(v, b), n - 1, b);
    }
  }

  lemma {:induction false} ValueBound(ds: seq<nat>, b: nat)
    requires forall i | 0 <= i < |ds| :: ds[i] < b
    ensures Value(ds, b) < Pow(b, |ds|)
  {
    if ds == [] {
    } else {
      ValueBound(ds[..|ds| - 1], b);
      MulLess(Value(ds[..|ds| - 1], b), Pow(b, |ds| - 1), b, ds[|ds| - 1]);
    }
  }

  lemma {:induction false} DigitsOfValue(ds: seq<nat>, b: nat)
    requires b > 0
    requires forall i | 0 <= i < |ds| :: ds[i] < b
    ensures Digits(Value(ds, b), |ds|, b) == ds
  {
    if ds == [] {
    } else {
      var init, last := ds[..|ds| - 1], ds[|ds| - 1];
      DigitsOfValue(init, b);
      DivModSplit(Value(init, b), b, last);
      assert init + [last] == ds;
    }
  }

  lemma {:induction false} ValueConcat(s: seq<nat>, t: seq<nat>, b: nat)
    ensures Value(s + t, b) == Value(s, b) * Pow(b, |t|) + Value(t, b)
  {
    if t == [] {
      assert s + t == s;
    } else {
      var init, last := t[..|t| - 1], t[|t| - 1];
      ValueConcat(s, init, b);
      assert (s + t)[..|s + t| - 1] == s + init;
      assert (Value(s, b) * Pow(b, |init|) + Value(init, b)) * b
          == Value(s, b) * (Pow(b, |init|) * b) + Value(init, b) * b;
    }
  }

  lemma Distribute(q: nat, p: nat, r: nat, b: nat)
    ensures (q * p + r) * b == q * (p * b) + r * b
  {
    assert (q * p) * b == q * (p * b);
  }

  lemma QuotQuot(v: nat, b: nat, p: nat)
    requires b > 0 && p > 0
    ensures p * b > 0
    ensures Quot(Quot(v, b), p) == Quot(v, p * b)
  {
    var (q, r) := DivMod(v, b);
    var (q2, r2) := DivMod(q, p);
    Distribute(q2, p, r2, b);
    MulLess(r2, p, b, r);
    DivModSplit(q2, p * b, r2 * b + r);
  }

  /** Digit `i` is what shifting and masking reads. */
  lemma {:induction false} DigitAt(v: nat, n: nat, b: nat, i: nat)
    requires b > 0 && i < n
    ensures Pow(b, n - 1 - i) > 0
    ensures Digits(v, n, b)[i] == Rem(Quot(v, Pow(b, n - 1 - i)), b)
  {
    PowPositive(b, n - 1 - i);
    if i == n - 1 {
      DivModSplit(v, 1, 0);
    } else {
      PowPositive(b, n - 2 - i);
      DigitAt(Quot(v, b), n - 1, b, i);
      hide DivMod, Quot, Rem;
      assert Digits(v, n, b)[i] == Digits(Quot(v, b), n - 1, b)[i];
      QuotQuot(v, b, Pow(b, n - 2 - i));
      assert Pow(b, n - 1 - i) == Pow(b, n - 2 - i) * b;
    }
  }
}
