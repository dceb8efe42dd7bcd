/** Scheme constants and arithmetic in Z_Q.
    Q, K and the tuple table come from the scheme's parameter header, which is
    not part of this model; the values below are the ones the attack scripts
    use (Q = 47, K = 2, tuple markers 1 and 7). */
module Field {

  /** The modulus of the field Z_Q. */
  const Q: int := 47

  /** Number of tuple blocks in the banded trapdoor matrix. */
  const K: nat := 2

  /** The tuple table: the fixed marker stamped at column i/2 of row i. */
  const TUPPLE: seq<int> := [1, 7]

  /** An `unsigned char`. */
  type byte = b: int | 0 <= b < 256

  /** A field element, stored in an `unsigned char`. */
  predicate IsFieldElement(x: int) {
    0 <= x < Q
  }

  /** The constraints the model relies on: Q fits in one byte and is above 1,
      and the tuple table has K field elements. */
  lemma ParametersSane()
    ensures 1 < Q <= 256
    ensures |TUPPLE| == K
    ensures forall t :: 0 <= t < K ==> IsFieldElement(TUPPLE[t])
  {
  }

  /** `s_mod_q`: floor-style reduction of a signed integer to [0, Q). */
  function SModQ(x: int): (r: int)
    ensures IsFieldElement(r)
    ensures (x - r) % Q == 0
  {
    x % Q
  }

  /** The reduction is the unique representative: any value in [0, Q) that is
      congruent to x is SModQ(x). */
  lemma SModQUnique(x: int, r: int)
    requires IsFieldElement(r) && (x - r) % Q == 0
    ensures SModQ(x) == r
  {
    var d := (x - r) / Q;
    assert x == d * Q + r;
  }

  /** The floor-mod behaviour on negative input that a truncating remainder
      would get wrong. */
  lemma SModQOfMinusOne()
    ensures SModQ(-1) == Q - 1
  {
  }

  /** Reducing a subtrahend first does not change the residue. */
  lemma SubModRight(h: int, s: int)
    ensures SModQ(h - s % Q) == SModQ(h - s)
  {
    var t := s / Q;
    assert s == t * Q + s % Q;
    assert (h - s % Q) - (h - s) == t * Q;
    SModQUnique(h - s, SModQ(h - s % Q));
  }

  /** Natural-number power. */
  function Pow(b: nat, e: nat): (r: nat)
    ensures b > 0 ==> r > 0
  {
    if e == 0 then 1 else b * Pow(b, e - 1)
  }

  lemma {:induction false} PowAdd(b: nat, e1: nat, e2: nat)
    ensures Pow(b, e1 + e2) == Pow(b, e1) * Pow(b, e2)
  {
    if e1 > 0 {
      PowAdd(b, e1 - 1, e2);
      assert Pow(b, e1 + e2) == b * Pow(b, e1 - 1 + e2);
    }
  }

  lemma {:induction false} PowMonotone(b: nat, e1: nat, e2: nat)
    requires b >= 1 && e1 <= e2
    ensures Pow(b, e1) <= Pow(b, e2)
  {
    if e1 < e2 {
      PowMonotone(b, e1, e2 - 1);
      assert Pow(b, e2) == b * Pow(b, e2 - 1);
    }
  }

  /** (v % m * a + c) % m == (v * a + c) % m. */
  lemma MulAddMod(v: int, a: int, c: int, m: int)
    requires m > 0
    ensures ((v % m) * a + c) % m == (v * a + c) % m
  {
    var t := v / m;
    assert v == t * m + v % m;
    assert v * a + c == ((v % m) * a + c) + (t * a) * m;
    ModShift((v % m) * a + c, t * a, m);
  }

  /** Adding a multiple of m does not change the residue. */
  lemma ModShift(x: int, t: int, m: int)
    requires m > 0
    ensures (x + t * m) % m == x % m
  {
    var r := x % m;
    var d := x / m;
    assert x == d * m + r;
    assert x + t * m == (d + t) * m + r;
    ModUnique(x + t * m, (d + t), r, m);
  }

  /** Euclidean division is determined by any quotient/remainder pair. */
  lemma ModUnique(x: int, d: int, r: int, m: int)
    requires m > 0 && 0 <= r < m && x == d * m + r
    ensures x % m == r && x / m == d
  {
    var d' := x / m;
    var r' := x % m;
    assert x == d' * m + r';
    assert (d' - d) * m == r - r';
    if d' > d {
      MulAtLeast(d' - d, m);
    } else if d' < d {
      assert (d - d') * m == r' - r;
      MulAtLeast(d - d', m);
    }
  }

  lemma MulAtLeast(a: int, m: int)
    requires a >= 1 && m > 0
    ensures a * m >= m
  {
    assert a * m == (a - 1) * m + m;
  }

  // ---------------------------------------------------------------------------
  // Positional numbers

  /** The value of a digit string read most significant digit first:
      Σ a[t] · base^(|a|-1-t). Base 16 for nibble runs, 256 for big-endian
      byte strings, Q for Horner's rule over field digits. */
  function Digits(base: nat, a: seq<int>): int
  {
    if a == [] then 0 else Digits(base, a[..|a| - 1]) * base + a[|a| - 1]
  }

  predicate AllDigits(base: nat, a: seq<int>)
  {
    forall t :: 0 <= t < |a| ==> 0 <= a[t] < base
  }

  lemma {:induction false} DigitsAppend(base: nat, a: seq<int>, c: seq<int>)
    ensures Digits(base, a + c) == Digits(base, a) * Pow(base, |c|) + Digits(base, c)
  {
    if c == [] {
      assert a + c == a;
    } else {
      var c' := c[..|c| - 1];
      assert (a + c)[..|a + c| - 1] == a + c';
      DigitsAppend(base, a, c');
      calc {
        Digits(base, a + c);
        Digits(base, a + c') * base + c[|c| - 1];
        (Digits(base, a) * Pow(base, |c'|) + Digits(base, c')) * base + c[|c| - 1];
        { assert Pow(base, |c|) == base * Pow(base, |c'|); }
        Digits(base, a) * Pow(base, |c|) + (Digits(base, c') * base + c[|c| - 1]);
      }
    }
  }

  /** A string of digits below the base denotes a value below base^length. */
  lemma {:induction false} DigitsBound(base: nat, a: seq<int>)
    requires AllDigits(base, a)
    ensures 0 <= Digits(base, a) < Pow(base, |a|)
  {
    if a != [] {
      var a' := a[..|a| - 1];
      assert AllDigits(base, a');
      DigitsBound(base, a');
      DigitStep(Digits(base, a'), a[|a| - 1], Pow(base, |a'|), base);
    }
  }

  /** One more digit: 0 <= v < p and 0 <= d < b give 0 <= v·b + d < p·b. */
  lemma DigitStep(v: int, d: int, p: int, b: nat)
    requires 0 <= v < p && 0 <= d < b
    ensures 0 <= v * b + d < p * b
  {
    MulMono(v + 1, p, b);
  }

  lemma MulMono(x: int, y: int, m: nat)
    requires x <= y
    ensures x * m <= y * m
  {
    assert y * m == x * m + (y - x) * m;
  }

  /** Leading zero digits do not change the value. */
  lemma {:induction false} DigitsLeadingZeros(base: nat, z: seq<int>, a: seq<int>)
    requires forall t :: 0 <= t < |z| ==> z[t] == 0
    ensures Digits(base, z + a) == Digits(base, a)
  {
    DigitsAppend(base, z, a);
    DigitsOfZeros(base, z);
  }

  lemma {:induction false} DigitsOfZeros(base: nat, z: seq<int>)
    requires forall t :: 0 <= t < |z| ==> z[t] == 0
    ensures Digits(base, z) == 0
  {
    if z != [] {
      DigitsOfZeros(base, z[..|z| - 1]);
    }
  }

  /** The last w digits of a string denote its value mod base^w. */
  lemma DigitsSuffix(base: nat, s: seq<int>, w: nat)
    requires base > 0 && w <= |s| && AllDigits(base, s)
    ensures Digits(base, s[|s| - w..]) == Digits(base, s) % Pow(base, w)
  {
    var hi, lo := s[..|s| - w], s[|s| - w..];
    assert s == hi + lo;
    DigitsAppend(base, hi, lo);
    assert AllDigits(base, lo);
    DigitsBound(base, lo);
    ModUnique(Digits(base, s), Digits(base, hi), Digits(base, lo), Pow(base, w));
  }

  /** Two digit strings of the same length with the same value are equal. */
  lemma {:induction false} DigitsInjective(base: nat, a: seq<int>, c: seq<int>)
    requires base > 0 && |a| == |c| && AllDigits(base, a) && AllDigits(base, c)
    requires Digits(base, a) == Digits(base, c)
    ensures a == c
  {
    if a != [] {
      var a', c' := a[..|a| - 1], c[..|c| - 1];
      assert AllDigits(base, a') && AllDigits(base, c');
      DigitsBound(base, a');
      DigitsBound(base, c');
      ModUnique(Digits(base, a), Digits(base, a'), a[|a| - 1], base);
      ModUnique(Digits(base, c), Digits(base, c'), c[|c| - 1], base);
      DigitsInjective(base, a', c');
      assert a == a' + [a[|a| - 1]] && c == c' + [c[|c| - 1]];
    }
  }
}
