/** Arithmetic modulo a prime, as big.Int, the BN254 scalar field and the secp256k1
    scalar field perform it. Everything is derived from primality: that a product of
    nonzero residues is nonzero, and that every nonzero residue has an inverse. */
module Field {

  predicate Divides(d: int, n: int)
    requires d != 0
  {
    n % d == 0
  }

  ghost predicate IsPrime(q: int) {
    2 <= q && forall d | 2 <= d < q :: !Divides(d, q)
  }

  /** Congruence modulo q. */
  predicate Cong(q: int, a: int, b: int)
    requires q > 0
  {
    a % q == b % q
  }

  // --- remainders -------------------------------------------------------------

  lemma RemainderUnique(q: int, k: int, a: int, b: int)
    requires q > 0
    requires a == k * q + b && 0 <= b < q
    ensures a % q == b
  {
    var t := a / q - k;
    MultipleBounds(q, t);
    assert t * q == b - a % q;
  }

  lemma MultipleBounds(q: int, t: int)
    requires q > 0
    ensures t >= 1 ==> t * q >= q
    ensures t <= -1 ==> t * q <= -q
  {
  }

  lemma AddMultiple(q: int, a: int, k: int)
    requires q > 0
    ensures (a + k * q) % q == a % q
  {
    assert a + k * q == (a / q + k) * q + a % q;
    RemainderUnique(q, a / q + k, a + k * q, a % q);
  }

  /** Congruent numbers differ by a multiple of the modulus. */
  lemma CongWitness(q: int, a: int, b: int) returns (k: int)
    requires q > 0 && Cong(q, a, b)
    ensures a == b + k * q
  {
    k := a / q - b / q;
    assert a == (a / q) * q + a % q;
    assert b == (b / q) * q + b % q;
  }

  lemma CongFromWitness(q: int, a: int, b: int, k: int)
    requires q > 0 && a == b + k * q
    ensures Cong(q, a, b)
  {
    AddMultiple(q, b, k);
  }

  lemma CongAdd(q: int, a: int, a': int, b: int, b': int)
    requires q > 0 && Cong(q, a, a') && Cong(q, b, b')
    ensures Cong(q, a + b, a' + b')
  {
    var k := CongWitness(q, a, a');
    var l := CongWitness(q, b, b');
    assert (k + l) * q == k * q + l * q;
    CongFromWitness(q, a + b, a' + b', k + l);
  }

  lemma CongSub(q: int, a: int, a': int, b: int, b': int)
    requires q > 0 && Cong(q, a, a') && Cong(q, b, b')
    ensures Cong(q, a - b, a' - b')
  {
    var k := CongWitness(q, a, a');
    var l := CongWitness(q, b, b');
    assert (k - l) * q == k * q - l * q;
    CongFromWitness(q, a - b, a' - b', k - l);
  }

  lemma CongScale(q: int, a: int, a': int, b: int)
    requires q > 0 && Cong(q, a, a')
    ensures Cong(q, a * b, a' * b)
  {
    var k := CongWitness(q, a, a');
    assert (a' + k * q) * b == a' * b + (k * b) * q;
    CongFromWitness(q, a * b, a' * b, k * b);
  }

  lemma CongMul(q: int, a: int, a': int, b: int, b': int)
    requires q > 0 && Cong(q, a, a') && Cong(q, b, b')
    ensures Cong(q, a * b, a' * b')
  {
    CongScale(q, a, a', b);
    CongScale(q, b, b', a');
    assert b * a' == a' * b && b' * a' == a' * b';
  }

  lemma ModIdempotent(q: int, a: int)
    requires q > 0
    ensures Cong(q, a % q, a)
    ensures 0 <= a % q < q
  {
    RemainderUnique(q, 0, a % q, a % q);
  }

  /** Reducing a factor first does not change a product. */
  lemma ModMul(q: int, a: int, b: int)
    requires q > 0
    ensures ((a % q) * b) % q == (a * b) % q
    ensures (b * (a % q)) % q == (b * a) % q
  {
    ModIdempotent(q, a);
    CongMul(q, a % q, a, b, b);
    CongMul(q, b, b, a % q, a);
  }

  lemma DifferenceZero(q: int, a: int, b: int)
    requires q > 0
    ensures (a - b) % q == 0 <==> Cong(q, a, b)
  {
    RemainderUnique(q, 0, 0, 0);
    if (a - b) % q == 0 { CongAdd(q, a - b, 0, b, b); }
    if Cong(q, a, b) { CongSub(q, a, b, b, b); }
  }

  lemma NegateFactor(b: int, m: int)
    ensures (-b) * m == -(b * m)
  {
  }

  lemma NegatedProduct(q: int, b: int, m: int)
    requires q > 0
    ensures Cong(q, ((-b) % q) * m, -(b * m))
  {
    ModIdempotent(q, -b);
    CongScale(q, (-b) % q, -b, m);
    NegateFactor(b, m);
  }

  /** A sum with a negated product cancels exactly when the two sides are congruent. */
  lemma Balance(q: int, a: int, b: int, m: int)
    requires q > 0
    ensures (a + ((-b) % q) * m) % q == 0 <==> Cong(q, a, b * m)
  {
    NegatedProduct(q, b, m);
    CongAdd(q, a, a, ((-b) % q) * m, -(b * m));
    DifferenceZero(q, a, b * m);
  }

  /** A residue is its own remainder. */
  lemma SmallMod(q: int, a: int)
    requires 0 <= a < q
    ensures a % q == a
  {
    RemainderUnique(q, 0, a, a);
  }

  // --- greatest common divisors -----------------------------------------------

  /** Extended Euclid: (x, y, g) with a*x + b*y == g. */
  function Bezout(a: nat, b: nat): (t: (int, int, nat))
    ensures a * t.0 + b * t.1 == t.2
    ensures t.2 == 0 ==> a == 0 && b == 0
    ensures t.2 > 0 ==> Divides(t.2, a) && Divides(t.2, b)
    decreases b
  {
    if b == 0 then
      if a > 0 then RemainderUnique(a, 1, a, 0); RemainderUnique(a, 0, 0, 0); (1, 0, a) else (1, 0, a)
    else
      var t := Bezout(b, a % b);
      BezoutStep(a, b, t.0, t.1, t.2);
      (t.1, t.0 - (a / b) * t.1, t.2)
  }

  lemma BezoutStep(a: nat, b: nat, x: int, y: int, g: nat)
    requires b > 0
    requires b * x + (a % b) * y == g
    ensures a * y + b * (x - (a / b) * y) == g
    ensures g > 0 && Divides(g, b) && Divides(g, a % b) ==> Divides(g, a)
  {
    var k := a / b;
    assert a == b * k + a % b;
    calc {
      a * y + b * (x - k * y);
      { assert b * (x - k * y) == b * x - b * (k * y); }
      a * y + b * x - b * (k * y);
      { assert b * (k * y) == (b * k) * y; }
      a * y - (b * k) * y + b * x;
      { assert a * y - (b * k) * y == (a - b * k) * y; }
      (a - b * k) * y + b * x;
      g;
    }
    if g > 0 && Divides(g, b) && Divides(g, a % b) {
      DividesSum(g, b, k, a % b);
    }
  }

  lemma DividesSum(g: int, b: int, k: int, c: int)
    requires g > 0 && Divides(g, b) && Divides(g, c)
    ensures Divides(g, b * k + c)
  {
    var m := b / g;
    var n := c / g;
    assert b == m * g && c == n * g;
    assert b * k + c == (m * k + n) * g + 0 by {
      assert (m * g) * k == (m * k) * g;
    }
    RemainderUnique(g, m * k + n, b * k + c, 0);
  }

  /** Modular inverse, as big.Int.ModInverse returns it for a prime modulus. */
  function Inv(q: int, a: int): (i: int)
    requires IsPrime(q) && a % q != 0
    ensures 0 < i < q
    ensures (a * i) % q == 1
  {
    var t := Bezout(q, a % q);
    InvFromBezout(q, a, t.0, t.1, t.2);
    t.1 % q
  }

  lemma InvFromBezout(q: int, a: int, x: int, y: int, g: nat)
    requires IsPrime(q) && a % q != 0
    requires q * x + (a % q) * y == g
    requires g > 0 ==> Divides(g, q) && Divides(g, a % q)
    requires g == 0 ==> q == 0
    ensures 0 < y % q < q
    ensures (a * (y % q)) % q == 1
  {
    DivisorBound(g, a % q);
    assert g < 2;
    assert (a % q) * y == 1 + (-x) * q;
    AddMultiple(q, 1, -x);
    RemainderUnique(q, 0, 1, 1);
    ModIdempotent(q, a);
    ModIdempotent(q, y);
    CongMul(q, a, a % q, y % q, y);
    assert y % q == 0 ==> (a * (y % q)) % q == 0 by { RemainderUnique(q, 0, 0, 0); }
  }

  lemma DivisorBound(g: int, n: int)
    requires g > 0 && n > 0 && Divides(g, n)
    ensures g <= n
  {
    assert n == (n / g) * g;
    assert n / g >= 1;
  }

  // --- prime moduli -----------------------------------------------------------

  /** Multiplying by a nonzero residue can be undone. */
  lemma Cancel(q: int, a: int, b: int, c: int)
    requires IsPrime(q) && a % q != 0
    requires Cong(q, a * b, a * c)
    ensures Cong(q, b, c)
  {
    var i := Inv(q, a);
    RemainderUnique(q, 0, 1, 1);
    CongMul(q, a * b, a * c, i, i);
    UndoInverse(q, a, i, b);
    UndoInverse(q, a, i, c);
  }

  lemma UndoInverse(q: int, a: int, i: int, b: int)
    requires q >= 2 && (a * i) % q == 1
    ensures Cong(q, a * b * i, b)
  {
    RemainderUnique(q, 0, 1, 1);
    CongMul(q, a * i, 1, b, b);
    assert a * b * i == a * i * b;
  }

  /** A field has no zero divisors. */
  lemma NoZeroDivisors(q: int, a: int, b: int)
    requires IsPrime(q)
    ensures (a * b) % q == 0 <==> a % q == 0 || b % q == 0
  {
    RemainderUnique(q, 0, 0, 0);
    if a % q == 0 {
      CongMul(q, a, 0, b, b);
    } else if b % q == 0 {
      CongMul(q, a, a, b, 0);
    } else if (a * b) % q == 0 {
      Cancel(q, a, b, 0);
    }
  }

  /** Inversion is injective on nonzero residues. */
  lemma InvInjective(q: int, a: int, b: int)
    requires IsPrime(q) && a % q != 0 && b % q != 0
    requires Inv(q, a) == Inv(q, b)
    ensures Cong(q, a, b)
  {
    var i := Inv(q, a);
    SmallMod(q, i);
    Commute(i, a);
    Commute(i, b);
    Cancel(q, i, a, b);
  }

  lemma Assoc(a: int, b: int, c: int)
    ensures a * (b * c) == (a * b) * c
  {
  }

  lemma Commute(a: int, b: int)
    ensures a * b == b * a
  {
  }

  /** Inv returns the only residue that multiplies a to one. */
  lemma InvUnique(q: int, a: int, i: int)
    requires IsPrime(q) && a % q != 0
    requires 0 <= i < q && (a * i) % q == 1
    ensures i == Inv(q, a)
  {
    Cancel(q, a, i, Inv(q, a));
    SmallMod(q, i);
    SmallMod(q, Inv(q, a));
  }
}
