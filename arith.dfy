/** Facts about integer multiplication and division that the solver does not
    find on its own. */
module Arith {

  lemma MulMonotone(a: int, b: int, c: int)
    requires a <= b && c > 0
    ensures a * c <= b * c
  {
    assert b * c - a * c == (b - a) * c;
  }

  lemma MulDistrib(a: int, b: int, c: int)
    ensures (a + b) * c == a * c + b * c
  {
  }

  lemma MulAssoc(a: int, b: int, c: int)
    ensures (a * b) * c == a * (b * c)
  {
  }

  /** Multiplying a strict inequality by a non-zero factor keeps it or flips it. */
  lemma MulStrict(a: int, b: int, c: int)
    requires a < b && c != 0
    ensures if c > 0 then a * c < b * c else a * c > b * c
  {
    assert b * c - a * c == (b - a) * c;
  }

  /** Division with remainder is unique. */
  lemma DivModOf(k: int, m: int, q: int, c: int)
    requires m > 0 && 0 <= c < m && k == q * m + c
    ensures k / m == q && k % m == c
  {
    var q' := k / m;
    var c' := k % m;
    assert k == q' * m + c' && 0 <= c' < m;
    if q' < q {
      MulMonotone(q', q - 1, m);
      assert false;
    } else if q' > q {
      MulMonotone(q + 1, q', m);
      assert false;
    }
  }

  /** The quotient of a number below m * w by w is below m. */
  lemma DivBelow(v: int, m: int, w: int)
    requires w > 0 && 0 <= v < m * w
    ensures 0 <= v / w < m && v == (v / w) * w + v % w && 0 <= v % w < w
  {
    var q := v / w;
    if q >= m {
      MulMonotone(m, q, w);
    }
  }

  /** The remainder of the successor wraps to 0 after m - 1. */
  lemma ModSucc(e: nat, m: nat)
    requires m > 0
    ensures (e + 1) % m == if e % m + 1 == m then 0 else e % m + 1
  {
    var q, c := e / m, e % m;
    assert e == q * m + c;
    if c + 1 == m {
      DivModOf(e + 1, m, q + 1, 0);
    } else {
      DivModOf(e + 1, m, q, c + 1);
    }
  }

  /** If (n-1)*s < d <= n*s then ceil(d / s) == n. */
  lemma DivBounds(d: int, s: int, n: int)
    requires s > 0 && n >= 1
    requires (n - 1) * s < d <= n * s
    ensures (d + s - 1) / s == n
  {
    var x := d + s - 1;
    var q := x / s;
    assert q * s + x % s == x && 0 <= x % s < s;
    assert (n - 1) * s == n * s - s;
    if q <= n - 1 {
      MulMonotone(q, n - 1, s);
      assert false;
    } else if q >= n + 1 {
      MulMonotone(n + 1, q, s);
      assert false;
    }
  }
}
