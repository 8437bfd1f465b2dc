/** Positional numerals: powers, big-endian digit sequences and the values
    they denote. The byte codec, the base32 codec and the decimal formatting
    of the one-time-password program are all instances of these, in base
    256, 32 and 10. */
module Numeric {

  /** An octet, Go's `byte`. */
  type byte = b: int | 0 <= b < 256

  function Pow(base: nat, n: nat): (r: nat)
    ensures base > 0 ==> r > 0
  {
    if n == 0 then 1 else base * Pow(base, n - 1)
  }

  lemma {:induction false} PowAdd(base: nat, m: nat, n: nat)
    ensures Pow(base, m + n) == Pow(base, m) * Pow(base, n)
  {
    if n > 0 {
      PowAdd(base, m, n - 1);
      MulLeftCommute(base, Pow(base, m), Pow(base, n - 1));
    }
  }

  /** Raising a power: (b^m)^n == b^(m*n), e.g. 32^n == 2^(5n). */
  lemma {:induction false} PowPow(base: nat, m: nat, n: nat)
    ensures Pow(Pow(base, m), n) == Pow(base, m * n)
  {
    if n > 0 {
      PowPow(base, m, n - 1);
      assert m * n == m + m * (n - 1);
      PowAdd(base, m, m * (n - 1));
    }
  }

  lemma MulAtLeast(d: int, k: int)
    ensures d > 0 && k >= 1 ==> d * k >= d
  {
  }

  lemma MulLeftCommute(a: int, b: int, c: int)
    ensures a * (b * c) == b * (a * c)
  {
  }

  lemma MulMonotone(a: int, b: int, c: nat)
    requires a <= b
    ensures a * c <= b * c
  {
  }

  /** A number below p, shifted one place and given a digit, is below base * p. */
  lemma BoundStep(v: int, p: int, base: int, d: int)
    requires v < p && 0 <= d < base
    ensures v * base + d < base * p
  {
    MulMonotone(v, p - 1, base);
  }

  /** One more step of Horner's rule: (x * p + y) * b + d == x * (p * b) + (y * b + d). */
  lemma HornerStep(x: int, p: int, y: int, b: int, d: int)
    ensures (x * p + y) * b + d == x * (p * b) + (y * b + d)
  {
  }

  /** Quotient and remainder are the unique pair that splits `v` by `d`. */
  lemma DivModUnique(v: int, d: int, q: int, r: int)
    requires d > 0 && v == d * q + r && 0 <= r < d
    ensures v / d == q && v % d == r
  {
    var q', r' := v / d, v % d;
    assert d * (q - q') == r' - r;
    MulAtLeast(d, q - q');
    MulAtLeast(d, q' - q);
  }

  /** A number below the divisor is its own remainder. */
  lemma ModOfSmaller(v: int, d: int)
    requires 0 <= v < d
    ensures v % d == v
  {
    DivModUnique(v, d, 0, v);
  }

  /** Dividing by `a` and then by `b` is dividing by `a * b`; this is what
      makes `(v >> s) >> t == v >> (s + t)` hold for Go's arithmetic shift. */
  lemma DivDiv(v: int, a: int, b: int)
    requires a > 0 && b > 0
    ensures v / a / b == v / (a * b)
    ensures v % (a * b) == (v / a) % b * a + v % a
  {
    var q, r := v / a, v % a;
    var q2, r2 := q / b, q % b;
    Recombine(a, b, q2, r2, r);
    SplitBound(a, b, r2, r);
    DivModUnique(v, a * b, q2, a * r2 + r);
  }

  lemma Recombine(a: int, b: int, q2: int, r2: int, r: int)
    ensures a * (b * q2 + r2) + r == (a * b) * q2 + (a * r2 + r)
  {
  }

  lemma SplitBound(a: int, b: int, r2: int, r: int)
    requires 0 <= r < a && 0 <= r2 < b
    ensures 0 <= a * r2 + r < a * b
  {
    MulMonotone(r2, b - 1, a);
  }

  /** The number denoted by the digits `ds`, most significant first. */
  function ValueOf(ds: seq<nat>, base: nat): nat
  {
    if ds == [] then 0 else ValueOf(ds[..|ds| - 1], base) * base + ds[|ds| - 1]
  }

  /** The `n` low-order digits of `v` in `base`, most significant first.
      For a negative `v` (Euclidean `/` and `%`) these are the digits of its
      complement modulo base^n, as Go's arithmetic shift and mask produce. */
  function DigitsOf(v: int, base: nat, n: nat): (ds: seq<nat>)
    requires base > 0
    ensures |ds| == n
    ensures forall i :: 0 <= i < n ==> ds[i] < base
    decreases n
  {
    if n == 0 then []
    else
      var high := DigitsOf(v / base, base, n - 1);
      var low: nat := v % base;
      var ds := high + [low];
      assert forall i :: 0 <= i < n ==> ds[i] < base by {
        forall i | 0 <= i < n ensures ds[i] < base {
          if i < n - 1 { assert ds[i] == high[i]; } else { assert ds[i] == low; }
        }
      }
      ds
  }

  /** The digits of `v` denote `v` reduced modulo base^n. */
  lemma {:induction false} ValueOfDigitsOf(v: int, base: nat, n: nat)
    requires base > 0
    ensures ValueOf(DigitsOf(v, base, n), base) == v % Pow(base, n)
    decreases n
  {
    if n > 0 {
      var ds := DigitsOf(v, base, n);
      assert ds[..n - 1] == DigitsOf(v / base, base, n - 1);
      ValueOfDigitsOf(v / base, base, n - 1);
      DivDiv(v, base, Pow(base, n - 1));
    }
  }

  /** Digit `i` of the `n` digits of `v`, counted from the most
      significant: `v` divided by base^(n-1-i), modulo base. */
  lemma {:induction false} DigitsOfAt(v: int, base: nat, n: nat, i: nat)
    requires base > 0 && i < n
    ensures DigitsOf(v, base, n)[i] == v / Pow(base, n - 1 - i) % base
    decreases n
  {
    if i == n - 1 {
      assert Pow(base, 0) == 1;
    } else {
      DigitsOfAt(v / base, base, n - 1, i);
      DivDiv(v, base, Pow(base, n - 2 - i));
    }
  }

  /** Reading digits back gives the digits that were written. */
  lemma {:induction false} DigitsOfValueOf(ds: seq<nat>, base: nat)
    requires base > 0
    requires forall i :: 0 <= i < |ds| ==> ds[i] < base
    ensures DigitsOf(ValueOf(ds, base), base, |ds|) == ds
  {
    if ds != [] {
      var n := |ds|;
      var v := ValueOf(ds, base);
      var init := ds[..n - 1];
      DivModUnique(v, base, ValueOf(init, base), ds[n - 1]);
      DigitsOfValueOf(init, base);
      assert ds == init + [ds[n - 1]];
    }
  }

  /** `n` digits in `base` denote a number below base^n. */
  lemma {:induction false} ValueOfBound(ds: seq<nat>, base: nat)
    requires base > 0
    requires forall i :: 0 <= i < |ds| ==> ds[i] < base
    ensures ValueOf(ds, base) < Pow(base, |ds|)
  {
    if ds != [] {
      var n := |ds|;
      var init := ds[..n - 1];
      ValueOfBound(init, base);
      BoundStep(ValueOf(init, base), Pow(base, n - 1), base, ds[n - 1]);
    }
  }

  /** Digits of a concatenation: the value of `a + b` shifts `a` by |b| places. */
  lemma {:induction false} ValueOfAppend(a: seq<nat>, b: seq<nat>, base: nat)
    ensures ValueOf(a + b, base) == ValueOf(a, base) * Pow(base, |b|) + ValueOf(b, base)
  {
    if b == [] {
      assert a + b == a;
    } else {
      var n := |b|;
      assert (a + b)[..|a + b| - 1] == a + b[..n - 1];
      ValueOfAppend(a, b[..n - 1], base);
      HornerStep(ValueOf(a, base), Pow(base, n - 1), ValueOf(b[..n - 1], base), base, b[n - 1]);
      assert Pow(base, n - 1) * base == Pow(base, n);
    }
  }

  /** A prefix one element longer is the prefix and that element. */
  lemma TakeOneMore<T>(s: seq<T>, i: nat)
    requires i < |s|
    ensures s[..i + 1] == s[..i] + [s[i]]
  {
  }
}
