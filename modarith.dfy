/** Integer modular arithmetic used by the signature engine: Python's `%` with a
    positive modulus, Euclid's algorithm, and the modular inverse that Python
    computes for `pow(x, -1, n)`.

    For a positive modulus Python's floored `%` and Dafny's Euclidean `%` agree
    (the remainder lies in [0, n) in both), so `x % n` below is Python's. */
module ModArith {

  /** The outcome of an operation that needs a modular inverse: a value, or the
      `ValueError` Python raises when the base is not invertible. */
  datatype Checked<T> = Value(v: T) | NotInvertible

  // ---------------------------------------------------------------------------
  // Remainder facts
  // ---------------------------------------------------------------------------

  /** A quotient/remainder pair with the remainder in range is the one `/` and `%` compute. */
  lemma ModUnique(x: int, n: int, q: int, r: int)
    requires 0 < n && 0 <= r < n && x == q * n + r
    ensures x % n == r && x / n == q
  {
    var q', r' := x / n, x % n;
    assert (q - q') * n == r' - r;
    if q > q' {
      MulAtLeast(q - q', n);
    } else if q < q' {
      MulAtLeast(q' - q, n);
    }
  }

  lemma MulAtLeast(a: int, n: int)
    requires a >= 1 && n > 0
    ensures a * n >= n
  {
  }

  /** Adding a multiple of the modulus does not change the remainder. */
  lemma ModAddMultiple(x: int, n: int, m: int)
    requires n > 0
    ensures (x + n * m) % n == x % n
  {
    assert x + n * m == (x / n + m) * n + x % n;
    ModUnique(x + n * m, n, x / n + m, x % n);
  }

  /** Reducing one factor first does not change the remainder of a product. */
  lemma ModMul(a: int, b: int, n: int)
    requires n > 0
    ensures ((a % n) * b) % n == (a * b) % n
  {
    assert a * b == (a % n) * b + n * ((a / n) * b);
    ModAddMultiple((a % n) * b, n, (a / n) * b);
  }

  /** Reducing one summand first does not change the remainder of a sum. */
  lemma ModAdd(a: int, b: int, n: int)
    requires n > 0
    ensures ((a % n) + b) % n == (a + b) % n
  {
    assert a + b == (a % n) + b + n * (a / n);
    ModAddMultiple((a % n) + b, n, a / n);
  }

  /** Multiplying congruent values by the same factor keeps them congruent. */
  lemma MulCongruent(a: int, b: int, c: int, n: int)
    requires n > 0 && a % n == b % n
    ensures (c * a) % n == (c * b) % n
  {
    calc {
      (c * a) % n;
      == { ModMul(a, c, n); }
      ((a % n) * c) % n;
      ((b % n) * c) % n;
      == { ModMul(b, c, n); }
      (c * b) % n;
    }
  }

  /** Adding congruent values to the same summand keeps them congruent. */
  lemma AddCongruent(a: int, b: int, c: int, n: int)
    requires n > 0 && a % n == b % n
    ensures (a + c) % n == (b + c) % n
  {
    ModAdd(a, c, n);
    ModAdd(b, c, n);
  }

  // ---------------------------------------------------------------------------
  // Greatest common divisor
  // ---------------------------------------------------------------------------

  /** Euclid's algorithm. */
  function Gcd(a: nat, b: nat): nat
    decreases b
  {
    if b == 0 then a else Gcd(b, a % b)
  }

  /** The extended Euclidean algorithm: the gcd `g`, Bezout coefficients
      `s`, `t`, and the cofactors `ca`, `cb` that witness `g` dividing both inputs. */
  datatype Bezout = Bezout(g: nat, s: int, t: int, ca: nat, cb: nat)

  function ExtGcd(a: nat, b: nat): (e: Bezout)
    decreases b
    ensures e.g == Gcd(a, b)
    ensures a * e.s + b * e.t == e.g
    ensures a == e.g * e.ca && b == e.g * e.cb
  {
    if b == 0 then Bezout(a, 1, 0, 1, 0)
    else
      var inner := ExtGcd(b, a % b);
      var q := a / b;
      BezoutStep(a, b, q, inner);
      Bezout(inner.g, inner.t, inner.s - q * inner.t, q * inner.ca + inner.cb, inner.ca)
  }

  /** One step of the extended algorithm: facts about `(b, a % b)` carried back to `(a, b)`. */
  lemma BezoutStep(a: nat, b: nat, q: int, inner: Bezout)
    requires b > 0 && q == a / b
    requires b * inner.s + (a % b) * inner.t == inner.g
    requires b == inner.g * inner.ca && a % b == inner.g * inner.cb
    ensures a * inner.t + b * (inner.s - q * inner.t) == inner.g
    ensures a == inner.g * (q * inner.ca + inner.cb)
  {
    assert a == q * b + a % b;
    calc {
      a * inner.t + b * (inner.s - q * inner.t);
      (q * b + a % b) * inner.t + b * inner.s - b * q * inner.t;
      b * inner.s + (a % b) * inner.t;
    }
    calc {
      inner.g * (q * inner.ca + inner.cb);
      q * (inner.g * inner.ca) + inner.g * inner.cb;
      q * b + a % b;
    }
  }

  /** `x` and `n` share no factor: the condition under which `pow(x, -1, n)` succeeds. */
  predicate Coprime(x: int, n: int)
    requires n > 0
  {
    Gcd(x % n, n) == 1
  }

  // ---------------------------------------------------------------------------
  // Modular inverse: pow(x, -1, n)
  // ---------------------------------------------------------------------------

  /** Python's `pow(x, -1, n)` for a positive modulus: the inverse of `x` in
      [0, n), or `NotInvertible` when `x` and `n` share a factor. */
  function ModInverse(x: int, n: int): (res: Checked<int>)
    requires n > 0
    ensures res.Value? <==> Coprime(x, n)
    ensures res.Value? ==> 0 <= res.v < n && (x * res.v) % n == 1 % n
  {
    var e := ExtGcd(x % n, n);
    if e.g == 1 then
      InverseFromBezout(x, n, e.s, e.t);
      Value(e.s % n)
    else
      NotInvertible
  }

  lemma InverseFromBezout(x: int, n: int, s: int, t: int)
    requires n > 0 && (x % n) * s + n * t == 1
    ensures (x * (s % n)) % n == 1 % n
  {
    ModAddMultiple((x % n) * s, n, t);
    ModMul(x, s, n);
    ModMul(s, x, n);
    assert (x * (s % n)) == (s % n) * x;
    assert (x * s) == s * x;
  }

  /** When `x` and `n` share a factor no `y` inverts `x`: Python is right to raise. */
  lemma NotCoprimeHasNoInverse(x: int, n: int, y: int)
    requires n > 0 && !Coprime(x, n)
    ensures (x * y) % n != 1 % n
  {
    var e := ExtGcd(x % n, n);
    var g, ca, cb := e.g, e.ca, e.cb;
    assert n == g * cb && x % n == g * ca;
    assert g >= 2 by {
      if g == 0 { ZeroFactor(n, cb); }
    }
    MulAtLeast(cb, g);
    ModUnique(1, n, 0, 1);
    if (x * y) % n == 1 {
      var m := (x * y) / n;
      assert x * y == n * m + 1;
      var p := cb * (x / n) + ca;
      FactorOfRemainder(x, n, g, ca, cb);
      ScaleFactor(x, g, p, y);
      ScaleFactor(n, g, cb, m);
      FactorOut(x * y, n * m, g, p * y, cb * m);
      NoUnitMultiple(g, p * y - cb * m);
    }
  }

  lemma ZeroFactor(n: int, c: int)
    requires n == 0 * c
    ensures n == 0
  {
  }

  lemma ScaleFactor(x: int, g: int, p: int, y: int)
    requires x == g * p
    ensures x * y == g * (p * y)
  {
  }

  lemma FactorOfRemainder(x: int, n: int, g: int, ca: int, cb: int)
    requires n > 0 && n == g * cb && x % n == g * ca
    ensures x == g * (cb * (x / n) + ca)
  {
    assert x == n * (x / n) + x % n;
  }

  lemma FactorOut(a: int, b: int, g: int, p: int, q: int)
    requires a == g * p && b == g * q
    ensures a - b == g * (p - q)
  {
  }

  lemma NoUnitMultiple(g: int, z: int)
    requires g >= 2
    ensures g * z != 1
  {
    if z >= 1 {
      MulAtLeast(z, g);
    } else if z <= -1 {
      MulAtLeast(-z, g);
    }
  }

  /** The inverse is unique: any `y` in [0, n) with `x * y == 1 (mod n)` is the one
      `ModInverse` returns. With NotCoprimeHasNoInverse this makes `ModInverse`
      succeed exactly when an inverse exists. */
  lemma InverseUnique(x: int, n: int, y: int)
    requires n > 0 && 0 <= y < n && (x * y) % n == 1 % n
    ensures ModInverse(x, n) == Value(y)
  {
    if !Coprime(x, n) {
      NotCoprimeHasNoInverse(x, n, y);
    }
    var v := ModInverse(x, n).v;
    MulCongruent(x * v, 1, y, n);
    MulCongruent(x * y, 1, v, n);
    assert y * (x * v) == v * (x * y);
    ModUnique(y, n, 0, y);
    ModUnique(v, n, 0, v);
  }

  // ---------------------------------------------------------------------------
  // Prime moduli
  // ---------------------------------------------------------------------------

  predicate Divides(d: int, n: int)
    requires d > 0
  {
    n % d == 0
  }

  predicate IsPrime(n: int)
  {
    n > 1 && forall d :: 1 < d < n ==> !Divides(d, n)
  }

  /** Modulo a prime, every value not divisible by it is invertible. */
  lemma PrimeCoprime(x: int, n: int)
    requires IsPrime(n) && x % n != 0
    ensures Coprime(x, n)
  {
    var e := ExtGcd(x % n, n);
    var g := e.g;
    assert g != 0;
    assert e.ca >= 1;
    MulAtLeast(e.ca, g);
    assert g < n;
    if g > 1 {
      ModUnique(n, g, e.cb, 0);
      assert Divides(g, n);
    }
  }
}
