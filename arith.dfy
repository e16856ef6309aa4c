/** Facts about multiplication and Euclidean remainder that the checkpoint
    and nonce arguments need. */
module Arith {

  /** A product of naturals is a natural. */
  lemma {:induction false} MulNonneg(a: nat, b: nat)
    ensures a * b >= 0
  {
    if b > 0 {
      MulNonneg(a, b - 1);
      assert a * b == a * (b - 1) + a;
    }
  }

  /** A nonzero product is at least as far from zero as each factor. */
  lemma MulAwayFromZero(d: int, t: int)
    requires d != 0 && t != 0
    ensures d * t <= -d || d * t >= d
    ensures d * t <= d || d * t >= -d
  {
    var a, b := if d > 0 then d else -d, if t > 0 then t else -t;
    MulNonneg(a, b - 1);
    assert a * b == a * (b - 1) + a;
    assert d * t == a * b || d * t == -(a * b);
  }

  /** A multiple of d leaves no remainder. */
  lemma MulModZero(q: int, d: int)
    requires d != 0
    ensures (q * d) % d == 0
  {
    var r := (q * d) % d;
    var t := q - (q * d) / d;
    assert q * d == d * ((q * d) / d) + r;
    assert r == d * t;
    if t != 0 {
      MulAwayFromZero(d, t);
      assert false;
    }
  }

  /** Scaling a multiple of c by s gives a multiple of c s. */
  lemma ScaledMultiple(m: int, s: int, c: int)
    requires s != 0 && c > 0 && m % c == 0
    ensures (m * s) % (c * s) == 0
  {
    var q := m / c;
    assert m == q * c;
    assert m * s == q * (c * s);
    MulModZero(q, c * s);
  }

  /** A remainder of zero means the quotient divides exactly. */
  lemma ExactQuotient(a: int, d: int)
    requires d != 0 && a % d == 0
    ensures a == (a / d) * d
  {
  }

  /** A factor of a zero product with a nonzero factor is zero. */
  lemma CancelFactor(x: int, s: int)
    requires s != 0 && x * s == 0
    ensures x == 0
  {
    if x != 0 {
      MulAwayFromZero(s, x);
      assert false;
    }
  }

  /** Collecting the terms of m s - q c s. */
  lemma Regroup(m: int, s: int, c: int, q: int)
    requires m * s == q * (c * s)
    ensures (m - q * c) * s == 0
  {
    assert (m - q * c) * s == m * s - q * (c * s);
  }

  /** A multiple of c s, divided by s, is a multiple of c. */
  lemma UnscaledMultiple(m: int, s: int, c: int)
    requires s != 0 && c > 0 && (m * s) % (c * s) == 0
    ensures m % c == 0
  {
    var q := (m * s) / (c * s);
    ExactQuotient(m * s, c * s);
    Regroup(m, s, c, q);
    CancelFactor(m - q * c, s);
    MulModZero(q, c);
  }

  /** m s is a multiple of c s exactly when m is a multiple of c. */
  lemma ModMultiple(m: int, s: int, c: int)
    requires s != 0 && c > 0
    ensures (m * s) % (c * s) == 0 <==> m % c == 0
  {
    if m % c == 0 {
      ScaledMultiple(m, s, c);
    }
    if (m * s) % (c * s) == 0 {
      UnscaledMultiple(m, s, c);
    }
  }
}
