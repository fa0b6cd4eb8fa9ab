/** ECDSA signing and verification (SEC 1 v2.0, sections 4.1.3 and 4.1.4) over
    an elliptic curve whose point arithmetic is supplied from outside.

    The curve library is not modelled: scalar multiplication and point addition
    are arbitrary functions carried in `PointArithmetic`. Only the round trip
    needs a property of them, `LinearInG`, which it takes as a hypothesis. */
module Ecdsa {
  import opened ModArith

  /** An affine point: two integer coordinates, set once and never updated. */
  datatype Point = Point(x: int, y: int)

  /** The coordinate list `[x, y]` a point turns into. */
  type Coordinates = xs: seq<int> | |xs| == 2 witness [0, 0]

  function ToArray(p: Point): (xs: Coordinates)
  {
    [p.x, p.y]
  }

  /** Curve domain parameters: coefficients `a`, `b`, the order `n` of the base
      point, the field size `p`, and the base point stored as its coordinate list. */
  datatype Field = Field(a: int, b: int, n: int, p: int, g: Coordinates)

  /** Building a field record from its parameters and a base point. */
  function NewField(a: int, b: int, n: int, p: int, base: Point): (f: Field)
  {
    Field(a, b, n, p, ToArray(base))
  }

  function BasePoint(f: Field): Point
  {
    Point(f.g[0], f.g[1])
  }

  /** The record keeps every parameter it was given, and the base point read
      back from the stored coordinate list is the point passed in. */
  lemma NewFieldKeepsParameters(a: int, b: int, n: int, p: int, base: Point)
    ensures var f := NewField(a, b, n, p, base);
      f.a == a && f.b == b && f.n == n && f.p == p && BasePoint(f) == base
  {
  }

  /** The external point arithmetic of the curve: `mul(P, k)` is k·P and
      `add(P, Q)` is P + Q. */
  datatype PointArithmetic = PointArithmetic(mul: (Point, int) -> Point, add: (Point, Point) -> Point)

  /** A signing engine: a field and the curve built over it. */
  datatype Engine = Engine(field: Field, curve: PointArithmetic)

  /** The domain parameters the engine needs: a positive order, so that `% n`
      is defined and lands in [0, n) as it does in Python. */
  predicate Valid(e: Engine)
  {
    e.field.n > 0
  }

  function GMultiplication(e: Engine, k: int): Point
  {
    e.curve.mul(BasePoint(e.field), k)
  }

  function SumPoints(e: Engine, p1: Point, p2: Point): Point
  {
    e.curve.add(p1, p2)
  }

  function MultiplyPoints(e: Engine, p: Point, k: int): Point
  {
    e.curve.mul(p, k)
  }

  /** A component of a signature, a nonce or a private key lies in [1, n-1]. */
  predicate InRange(x: int, n: int)
  {
    1 <= x <= n - 1
  }

  // ---------------------------------------------------------------------------
  // Random scalars
  // ---------------------------------------------------------------------------

  /** A nonce drawn from [1, n-1]; which one is left open. */
  method KGenerator(e: Engine) returns (k: int)
    requires e.field.n >= 2
    ensures InRange(k, e.field.n)
  {
    assert InRange(1, e.field.n);
    k :| InRange(k, e.field.n);
  }

  /** A private key drawn from [1, n-1]; which one is left open. */
  method PrivateKeyGenerator(e: Engine) returns (d: int)
    requires e.field.n >= 2
    ensures InRange(d, e.field.n)
  {
    assert InRange(1, e.field.n);
    d :| InRange(d, e.field.n);
  }

  // ---------------------------------------------------------------------------
  // Signing
  // ---------------------------------------------------------------------------

  /** What signing returns: the pair `(r, s)`, the integer code 0 (r was 0) or
      1 (s was 0), or the `ValueError` of `pow(k, -1, n)` when k is not
      invertible modulo n. */
  datatype SignResult = Signature(r: int, s: int) | FailureCode(code: int) | NonInvertibleNonce

  /** r = (k·G).x mod n */
  function NonceX(e: Engine, k: int): int
    requires Valid(e)
  {
    GMultiplication(e, k).x % e.field.n
  }

  function SignMessage(e: Engine, privateKey: int, k: int, hash: int): (res: SignResult)
    requires Valid(e)
    ensures res == FailureCode(0) <==> NonceX(e, k) == 0
    ensures res.NonInvertibleNonce? <==> NonceX(e, k) != 0 && !Coprime(k, e.field.n)
    ensures res == FailureCode(1) <==>
      NonceX(e, k) != 0 && Coprime(k, e.field.n) &&
      (ModInverse(k, e.field.n).v * (hash + privateKey * NonceX(e, k))) % e.field.n == 0
    ensures res.FailureCode? ==> res.code == 0 || res.code == 1
    ensures res.Signature? ==>
      res.r == NonceX(e, k) && InRange(res.r, e.field.n) && InRange(res.s, e.field.n)
  {
    var n := e.field.n;
    var r := GMultiplication(e, k).x % n;
    if r == 0 then FailureCode(0)
    else
      match ModInverse(k, n)
      case NotInvertible => NonInvertibleNonce
      case Value(kInv) =>
        var s := (kInv * (hash + privateKey * r)) % n;
        if s == 0 then FailureCode(1) else Signature(r, s)
  }

  /** A signature satisfies the signing equation s·k = hash + d·r (mod n). */
  lemma SignatureEquation(e: Engine, privateKey: int, k: int, hash: int)
    requires Valid(e) && SignMessage(e, privateKey, k, hash).Signature?
    ensures var sig := SignMessage(e, privateKey, k, hash);
      (sig.s * k) % e.field.n == (hash + privateKey * sig.r) % e.field.n
  {
    var n := e.field.n;
    var sig := SignMessage(e, privateKey, k, hash);
    var kInv := ModInverse(k, n).v;
    var m := hash + privateKey * sig.r;
    assert sig.s == (kInv * m) % n;
    calc {
      (sig.s * k) % n;
      == { ModMul(kInv * m, k, n); }
      ((kInv * m) * k) % n;
      == { assert (kInv * m) * k == (k * kInv) * m; }
      ((k * kInv) * m) % n;
      == { ModMul(k * kInv, m, n); }
      (((k * kInv) % n) * m) % n;
      == { ModMul(1, m, n); }
      m % n;
    }
  }

  // ---------------------------------------------------------------------------
  // Verification
  // ---------------------------------------------------------------------------

  /** The point u1·G + u2·Q that verification compares against r, for w = s⁻¹,
      u1 = hash·w and u2 = r·w. */
  function VerificationPoint(e: Engine, r: int, s: int, hash: int, publicKey: Point): Point
    requires Valid(e) && Coprime(s, e.field.n)
  {
    var n := e.field.n;
    var w := ModInverse(s, n).v;
    SumPoints(e, GMultiplication(e, (hash * w) % n), MultiplyPoints(e, publicKey, (r * w) % n))
  }

  /** `Value(b)` is the verdict; `NotInvertible` is the `ValueError` of `pow(s, -1, n)`.
      The range check comes first, so an order below 2, for which [1, n-1] is
      empty, rejects every signature before any `%` is taken. */
  function VerifySignature(e: Engine, r: int, s: int, hash: int, publicKey: Point): (res: Checked<bool>)
    ensures !(InRange(r, e.field.n) && InRange(s, e.field.n)) ==> res == Value(false)
    ensures res.NotInvertible? <==>
      InRange(r, e.field.n) && InRange(s, e.field.n) && !Coprime(s, e.field.n)
    ensures res == Value(true) <==>
      InRange(r, e.field.n) && InRange(s, e.field.n) && Coprime(s, e.field.n) &&
      VerificationPoint(e, r, s, hash, publicKey).x % e.field.n == r
  {
    var n := e.field.n;
    if s > n - 1 || r > n - 1 || s < 1 || r < 1 then Value(false)
    else
      match ModInverse(s, n)
      case NotInvertible => NotInvertible
      case Value(w) =>
        var u1 := (hash * w) % n;
        var u2 := (r * w) % n;
        var x2 := SumPoints(e, GMultiplication(e, u1), MultiplyPoints(e, publicKey, u2)).x;
        var v := x2 % n;
        Value(r == v)
  }

  /** For a prime order, verification always reaches a verdict. */
  lemma VerifyDefinedForPrimeOrder(e: Engine, r: int, s: int, hash: int, publicKey: Point)
    requires Valid(e) && IsPrime(e.field.n)
    ensures VerifySignature(e, r, s, hash, publicKey).Value?
  {
    if InRange(s, e.field.n) {
      ModUnique(s, e.field.n, 0, s);
      PrimeCoprime(s, e.field.n);
    }
  }

  /** With an order below 2 no signature is in range, and every one is rejected. */
  lemma VerifyRejectsSmallOrder(e: Engine, r: int, s: int, hash: int, publicKey: Point)
    requires e.field.n <= 1
    ensures VerifySignature(e, r, s, hash, publicKey) == Value(false)
  {
  }

  /** An in-range signature whose verification point misses r is rejected. */
  lemma VerifyRejects(e: Engine, r: int, s: int, hash: int, publicKey: Point)
    requires Valid(e) && InRange(r, e.field.n) && InRange(s, e.field.n) && Coprime(s, e.field.n)
    requires VerificationPoint(e, r, s, hash, publicKey).x % e.field.n != r
    ensures VerifySignature(e, r, s, hash, publicKey) == Value(false)
  {
  }
  // ---------------------------------------------------------------------------
  // Round trip
  // ---------------------------------------------------------------------------

  /** The group model: the multiples of G combine linearly modulo n, that is
      a·G + b·(c·G) = ((a + c·b) mod n)·G. Points are thereby identified by
      their discrete logarithm to base G. */
  ghost predicate LinearInG(e: Engine)
    requires Valid(e)
  {
    var g := BasePoint(e.field);
    forall a: int, b: int, c: int ::
      e.curve.add(e.curve.mul(g, a), e.curve.mul(e.curve.mul(g, c), b)) == e.curve.mul(g, (a + c * b) % e.field.n)
  }

  /** The exponent arithmetic behind the round trip: u1 + d·u2 = k (mod n). */
  lemma ExponentsCombine(n: int, d: int, k: int, hash: int, r: int, s: int, w: int)
    requires n > 0 && 0 <= k < n
    requires (s * k) % n == (hash + d * r) % n
    requires (s * w) % n == 1 % n
    ensures ((hash * w) % n + d * ((r * w) % n)) % n == k
  {
    var u1, u2 := (hash * w) % n, (r * w) % n;
    var m := hash + d * r;
    calc {
      (u1 + d * u2) % n;
      == { ModAdd(hash * w, d * u2, n); }
      (hash * w + d * u2) % n;
      == { ModUnique(u2, n, 0, u2); MulCongruent(u2, r * w, d, n); AddCongruent(d * u2, d * (r * w), hash * w, n); }
      (hash * w + d * (r * w)) % n;
      == { assert hash * w + d * (r * w) == w * m; }
      (w * m) % n;
      == { MulCongruent(m, s * k, w, n); }
      (w * (s * k)) % n;
      == { assert w * (s * k) == (s * w) * k; ModMul(s * w, k, n); }
      ((1 % n) * k) % n;
      == { ModMul(1, k, n); ModUnique(k, n, 0, k); }
      k;
    }
  }

  /** A signature made with private key d and a nonce in [1, n-1] verifies
      against the public key d·G, for a prime order in the linear group model. */
  lemma SignThenVerify(e: Engine, privateKey: int, k: int, hash: int)
    requires Valid(e) && IsPrime(e.field.n) && LinearInG(e)
    requires InRange(k, e.field.n)
    requires SignMessage(e, privateKey, k, hash).Signature?
    ensures var sig := SignMessage(e, privateKey, k, hash);
      VerifySignature(e, sig.r, sig.s, hash, GMultiplication(e, privateKey)) == Value(true)
  {
    var n := e.field.n;
    var g := BasePoint(e.field);
    var sig := SignMessage(e, privateKey, k, hash);
    SignatureEquation(e, privateKey, k, hash);
    ModUnique(sig.s, n, 0, sig.s);
    PrimeCoprime(sig.s, n);
    var w := ModInverse(sig.s, n).v;
    var u1, u2 := (hash * w) % n, (sig.r * w) % n;
    ExponentsCombine(n, privateKey, k, hash, sig.r, sig.s, w);
    assert e.curve.add(e.curve.mul(g, u1), e.curve.mul(e.curve.mul(g, privateKey), u2)) == e.curve.mul(g, k);
  }

  /** A concrete instance of the group model: each point carries its discrete
      logarithm in x, G = (1, 0), and the operations act on logarithms mod n.
      It shows that `LinearInG` can be met. */
  function LogModel(n: int): (e: Engine)
    requires n > 0
  {
    Engine(
      NewField(0, 0, n, n, Point(1, 0)),
      PointArithmetic((p: Point, k: int) => Point((p.x * k) % n, 0),
                      (p: Point, q: Point) => Point((p.x + q.x) % n, 0)))
  }

  lemma LogModelIsLinear(n: int)
    requires n > 0
    ensures Valid(LogModel(n)) && LinearInG(LogModel(n))
  {
    var e := LogModel(n);
    var g := BasePoint(e.field);
    assert g == Point(1, 0);
    forall a: int, b: int, c: int
      ensures e.curve.add(e.curve.mul(g, a), e.curve.mul(e.curve.mul(g, c), b)) == e.curve.mul(g, (a + c * b) % n)
    {
      calc {
        ((a % n) + ((c % n) * b) % n) % n;
        == { ModMul(c, b, n); }
        ((a % n) + (c * b) % n) % n;
        == { ModAdd(a, (c * b) % n, n); }
        (a + (c * b) % n) % n;
        == { ModAdd(c * b, a, n); }
        (a + c * b) % n;
      }
      ModUnique((a + c * b) % n, n, 0, (a + c * b) % n);
    }
  }

  /** A concrete round trip over the order-5 log model: private key 2, nonce 1
      and hash 1 sign to (1, 3), and that signature verifies against 2·G. */
  lemma LogModelRoundTrip()
    ensures SignMessage(LogModel(5), 2, 1, 1) == Signature(1, 3)
    ensures VerifySignature(LogModel(5), 1, 3, 1, GMultiplication(LogModel(5), 2)) == Value(true)
  {
    var e := LogModel(5);
    LogModelIsLinear(5);
    assert IsPrime(5) by {
      forall d | 1 < d < 5 ensures !Divides(d, 5) {
        assert d == 2 || d == 3 || d == 4;
      }
    }
    assert GMultiplication(e, 1) == Point(1, 0);
    InverseUnique(1, 5, 1);
    assert SignMessage(e, 2, 1, 1) == Signature(1, 3);
    SignThenVerify(e, 2, 1, 1);
  }

  /** In the same setting the altered signature (1, 4) misses: w = 4,
      u1 = u2 = 4, and 4·G + 4·(2·G) has logarithm 2, not r = 1. With
      `VerifyRejects` this makes verification of (1, 4) return false. */
  lemma LogModelAlteredSignatureMisses(e: Engine)
    requires e == LogModel(5)
    ensures Valid(e) && e.field.n == 5 && Coprime(4, e.field.n)
    ensures VerificationPoint(e, 1, 4, 1, GMultiplication(e, 2)).x % e.field.n != 1
  {
    var q := GMultiplication(e, 2);
    assert q == Point(2, 0);
    assert GMultiplication(e, 4) == Point(4, 0);
    assert MultiplyPoints(e, q, 4) == Point(3, 0);
    assert SumPoints(e, Point(4, 0), Point(3, 0)) == Point(2, 0);
    InverseOfFour(e);
  }

  /** The altered signature (1, 4) is rejected in the order-5 log model. */
  lemma LogModelRejectsAltered()
    ensures VerifySignature(LogModel(5), 1, 4, 1, GMultiplication(LogModel(5), 2)) == Value(false)
  {
    LogModelAlteredSignatureMisses(LogModel(5));
    VerifyRejects(LogModel(5), 1, 4, 1, GMultiplication(LogModel(5), 2));
  }

  lemma InverseOfFour(e: Engine)
    requires e == LogModel(5)
    ensures ModInverse(4, e.field.n) == Value(4)
  {
    InverseUnique(4, 5, 4);
  }
}
