// Powers and the division facts the mixed-radix codec and the digit test rely on.
module Arith {

  function Pow(b: nat, e: nat): (r: nat)
    ensures b >= 1 ==> r >= 1
  {
    if e == 0 then 1 else b * Pow(b, e - 1)
  }

  lemma {:induction false} PowMonotoneExp(b: nat, e1: nat, e2: nat)
    requires b >= 1 && e1 <= e2
    ensures Pow(b, e1) <= Pow(b, e2)
  {
    if e1 < e2 {
      PowMonotoneExp(b, e1, e2 - 1);
    }
  }

  lemma {:induction false} PowMonotoneBase(b1: nat, b2: nat, e: nat)
    requires b1 <= b2
    ensures Pow(b1, e) <= Pow(b2, e)
  {
    if e > 0 {
      PowMonotoneBase(b1, b2, e - 1);
      var p1, p2 := Pow(b1, e - 1), Pow(b2, e - 1);
      MulMonotone(b1, b2, p1);
      MulMonotone(p1, p2, b2);
      assert Pow(b1, e) == b1 * p1 && Pow(b2, e) == b2 * p2;
    }
  }

  lemma {:induction false} MulMonotone(a: int, b: int, m: int)
    requires a <= b && m >= 0
    ensures a * m <= b * m
  {
  }

  lemma {:induction false} MulSucc(a: int, b: int)
    ensures (a + 1) * b == a * b + b
  {
  }

  /** A numeral extended by one digit stays below the next power. */
  lemma {:induction false} DigitBound(v: int, p: int, S: int, P: int)
    requires 0 <= v < P && 0 <= p < S
    ensures v * S + p < P * S
  {
    MulMonotone(v + 1, P, S);
    MulSucc(v, S);
  }

  lemma {:induction false} MulLessIff(a: int, b: int, S: int)
    requires S > 0
    ensures a * S < b * S <==> a < b
  {
    if a < b {
      MulMonotone(a + 1, b, S);
      MulSucc(a, S);
    } else {
      MulMonotone(b, a, S);
    }
  }

  /** Division with remainder of naturals, stated as plain facts. */
  lemma {:induction false} DivModBounds(n: nat, m: nat)
    requires m > 0
    ensures 0 <= n / m && 0 <= n % m < m && n == (n / m) * m + n % m
  {
  }

  /** Division with remainder is unique. */
  lemma {:induction false} DivModUnique(n: int, m: int, q: int, r: int)
    requires m > 0 && 0 <= r < m && n == q * m + r
    ensures n / m == q && n % m == r
  {
    var q', r' := n / m, n % m;
    assert n == q' * m + r' && 0 <= r' < m;
    if q > q' {
      MulMonotone(q' + 1, q, m);
      assert false;
    } else if q < q' {
      MulMonotone(q + 1, q', m);
      assert false;
    }
  }

  lemma {:induction false} MulDistributes(a: int, b: int, c: int)
    ensures (a + b) * c == a * c + b * c
  {
  }

  lemma {:induction false} MulRotates(a: int, b: int, c: int)
    ensures (a * b) * c == a * (c * b)
  {
  }

  lemma {:induction false} DivShrinks(n: nat, s: nat)
    requires s > 0
    ensures n / s <= n
  {
    DivModUnique(n, s, n / s, n % s);
    MulMonotone(1, s, n / s);
  }

  /** Dividing by s and then by Q is dividing by s*Q; the remainder splits accordingly. */
  lemma {:induction false} ModMul(n: nat, s: nat, Q: nat)
    requires s > 0 && Q > 0
    ensures n / (s * Q) == (n / s) / Q
    ensures n % (s * Q) == ((n / s) % Q) * s + n % s
  {
    var a, b := n / s, n % s;
    var c, d := a / Q, a % Q;
    assert n == a * s + b;
    assert a == c * Q + d;
    assert n == c * (s * Q) + (d * s + b) by {
      MulDistributes(c * Q, d, s);
      MulRotates(c, Q, s);
    }
    assert d * s + b < s * Q by {
      MulMonotone(d, Q - 1, s);
      MulSucc(Q - 1, s);
    }
    DivModUnique(n, s * Q, c, d * s + b);
  }
}
