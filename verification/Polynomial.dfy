/** Polynomials over the integers and modulo a prime: evaluation, the product
    (X + a_1)...(X + a_n), one multiplication by a linear factor, and division by one. */
module Polynomial {
  import opened Sequences
  import opened Field

  function Pow(x: int, n: nat): int {
    if n == 0 then 1 else x * Pow(x, n - 1)
  }

  /** Value at x of the polynomial with ascending coefficients c. */
  function Eval(c: seq<int>, x: int): int {
    if c == [] then 0 else c[0] + x * Eval(c[1..], x)
  }

  /** (x + a_1) * ... * (x + a_n). */
  function Prod(a: seq<int>, x: int): int {
    if a == [] then 1 else Prod(a[..|a| - 1], x) * (x + a[|a| - 1])
  }

  /** Coefficients of (X + m) * c plus the constant `carry`, reduced modulo q. */
  function TimesLinear(q: int, c: seq<int>, m: int, carry: int): (t: seq<int>)
    requires q > 0
    ensures |t| == |c| + 1
    decreases |c|
  {
    if c == [] then [carry]
    else [(carry + c[0] * m) % q] + TimesLinear(q, c[1..], m, c[0] % q)
  }

  /** Coefficients of (X + a_1)...(X + a_n), reduced modulo q. */
  function ProductCoefficients(q: int, a: seq<int>): (c: seq<int>)
    requires q > 0
    ensures |c| == |a| + 1
    decreases |a|
  {
    if a == [] then [1]
    else TimesLinear(q, ProductCoefficients(q, a[..|a| - 1]), a[|a| - 1], 0)
  }

  predicate Reduced(q: int, c: seq<int>) {
    forall i | 0 <= i < |c| :: 0 <= c[i] < q
  }

  // --- evaluation ----------------------------------------------------------------

  lemma SnocArith(c: int, x: int, e: int, p: int, d: int)
    ensures c + x * (e + p * d) == c + x * e + x * p * d
  {
  }

  lemma {:induction false} EvalSnoc(c: seq<int>, d: int, x: int)
    ensures Eval(c + [d], x) == Eval(c, x) + Pow(x, |c|) * d
  {
    if c == [] {
      assert c + [d] == [d];
      assert [d][1..] == [];
    } else {
      EvalSnoc(c[1..], d, x);
      assert (c + [d])[1..] == c[1..] + [d];
      SnocArith(c[0], x, Eval(c[1..], x), Pow(x, |c| - 1), d);
    }
  }

  lemma TimesLinearStep(q: int, c: int, m: int, carry: int, x: int, e: int, v: int)
    requires q > 0 && Cong(q, v, c % q + (x + m) * e)
    ensures Cong(q, (carry + c * m) % q + x * v, carry + (x + m) * (c + x * e))
  {
    var w := c + (x + m) * e;
    ModIdempotent(q, c);
    CongAdd(q, c % q, c, (x + m) * e, (x + m) * e);
    CongMul(q, x, x, v, w);
    ModIdempotent(q, carry + c * m);
    CongAdd(q, (carry + c * m) % q, carry + c * m, x * v, x * w);
    TimesLinearArith(c, m, x, e);
  }

  lemma TimesLinearArith(c: int, m: int, x: int, e: int)
    ensures c * m + x * (c + (x + m) * e) == (x + m) * (c + x * e)
  {
    var k := x + m;
    assert x * (c + k * e) == x * c + k * (x * e);
    assert k * (c + x * e) == k * c + k * (x * e);
    assert k * c == x * c + c * m;
  }

  lemma {:induction false} TimesLinearEval(q: int, c: seq<int>, m: int, carry: int, x: int)
    requires q > 0
    ensures Cong(q, Eval(TimesLinear(q, c, m, carry), x), carry + (x + m) * Eval(c, x))
    decreases |c|
  {
    var t := TimesLinear(q, c, m, carry);
    if c == [] {
      assert t[1..] == [];
    } else {
      TimesLinearEval(q, c[1..], m, c[0] % q, x);
      assert t[1..] == TimesLinear(q, c[1..], m, c[0] % q);
      TimesLinearStep(q, c[0], m, carry, x, Eval(c[1..], x), Eval(t[1..], x));
    }
  }

  lemma ReplaceFactor(q: int, v: int, m: int, e: int, p: int)
    requires q > 0 && Cong(q, v, 0 + m * e) && Cong(q, e, p)
    ensures Cong(q, v, p * m)
  {
    CongMul(q, m, m, e, p);
    assert m * p == p * m;
  }

  /** The coefficients computed modulo q evaluate to the product. */
  lemma {:induction false} ProductCoefficientsEval(q: int, a: seq<int>, x: int)
    requires q > 0
    ensures Cong(q, Eval(ProductCoefficients(q, a), x), Prod(a, x))
    decreases |a|
  {
    if a == [] {
      assert [1][1..] == [];
      assert x * Eval([1][1..], x) == 0;
    } else {
      var n := |a| - 1;
      var c := ProductCoefficients(q, a[..n]);
      ProductCoefficientsEval(q, a[..n], x);
      TimesLinearEval(q, c, a[n], 0, x);
      ReplaceFactor(q, Eval(ProductCoefficients(q, a), x), x + a[n], Eval(c, x), Prod(a[..n], x));
    }
  }

  lemma {:induction false} TimesLinearShape(q: int, c: seq<int>, m: int, carry: int)
    requires q > 1 && Reduced(q, c) && 0 <= carry < q
    ensures Reduced(q, TimesLinear(q, c, m, carry))
    ensures c != [] ==> TimesLinear(q, c, m, carry)[|c|] == c[|c| - 1]
    decreases |c|
  {
    if c != [] {
      SmallMod(q, c[0]);
      TimesLinearShape(q, c[1..], m, c[0] % q);
      var t := TimesLinear(q, c, m, carry);
      assert forall i | 0 <= i < |t| :: 0 <= t[i] < q by {
        forall i | 0 <= i < |t| ensures 0 <= t[i] < q {
          if i > 0 { assert t[i] == TimesLinear(q, c[1..], m, c[0] % q)[i - 1]; }
        }
      }
    }
  }

  /** The product is monic and its coefficients are canonical residues. */
  lemma {:induction false} ProductCoefficientsShape(q: int, a: seq<int>)
    requires q > 1
    ensures Reduced(q, ProductCoefficients(q, a))
    ensures ProductCoefficients(q, a)[|a|] == 1
    decreases |a|
  {
    if a != [] {
      var n := |a| - 1;
      ProductCoefficientsShape(q, a[..n]);
      TimesLinearShape(q, ProductCoefficients(q, a[..n]), a[n], 0);
    }
  }

  // --- products --------------------------------------------------------------------

  lemma {:induction false} ProdConcat(a: seq<int>, b: seq<int>, x: int)
    ensures Prod(a + b, x) == Prod(a, x) * Prod(b, x)
  {
    if b == [] {
      assert a + b == a;
    } else {
      var n := |b| - 1;
      ProdConcat(a, b[..n], x);
      assert (a + b)[..|a + b| - 1] == a + b[..n];
      assert Prod(a, x) * Prod(b[..n], x) * (x + b[n]) == Prod(a, x) * (Prod(b[..n], x) * (x + b[n]));
    }
  }

  lemma ProdWithout(a: seq<int>, i: nat, x: int)
    requires i < |a|
    ensures Prod(a, x) == Prod(Without(a, i), x) * (x + a[i])
  {
    var l, r := a[..i], a[i + 1..];
    assert a == l + [a[i]] + r;
    ProdConcat(l + [a[i]], r, x);
    assert (l + [a[i]])[..i] == l;
    ProdConcat(l, r, x);
    assert Prod(l, x) * (x + a[i]) * Prod(r, x) == Prod(l, x) * Prod(r, x) * (x + a[i]);
  }

  /** The product does not depend on the order of the factors. */
  lemma {:induction false} ProdPermute(a: seq<int>, b: seq<int>, x: int)
    requires multiset(a) == multiset(b)
    ensures Prod(a, x) == Prod(b, x)
    decreases |a|
  {
    assert |a| == |multiset(a)| && |b| == |multiset(b)|;
    if a != [] {
      var n := |a| - 1;
      assert Without(a, n) == a[..n];
      assert a[n] in multiset(b);
      var j :| 0 <= j < |b| && b[j] == a[n];
      RemoveEqual(a, b, n, j);
      ProdPermute(a[..n], Without(b, j), x);
      ProdWithout(b, j, x);
    }
  }

  /** Modulo a prime, a product is zero exactly when one of its factors is. */
  lemma {:induction false} ProdZero(q: int, a: seq<int>, x: int)
    requires IsPrime(q)
    ensures Prod(a, x) % q == 0 <==> exists i :: 0 <= i < |a| && (x + a[i]) % q == 0
  {
    if a == [] {
      SmallMod(q, 1);
    } else {
      var n := |a| - 1;
      ProdZero(q, a[..n], x);
      NoZeroDivisors(q, Prod(a[..n], x), x + a[n]);
      if i :| 0 <= i < |a[..n]| && (x + a[..n][i]) % q == 0 {
        assert (x + a[i]) % q == 0;
      }
      if i :| 0 <= i < |a| && (x + a[i]) % q == 0 {
        assert i == n || (x + a[..n][i]) % q == 0;
      }
    }
  }

  // --- division by X + b -------------------------------------------------------------

  /** Synthetic division: quotient and remainder of c by X + b, reduced modulo q. */
  function Divide(q: int, c: seq<int>, b: int): (d: (seq<int>, int))
    requires q > 0 && c != []
    ensures |d.0| == |c| - 1
    decreases |c|
  {
    if |c| == 1 then ([], c[0])
    else
      var d := Divide(q, c[1..], b);
      ([d.1] + d.0, (c[0] - b * d.1) % q)
  }

  lemma DivideStep(q: int, c: int, b: int, x: int, e: int, t: int, v: int)
    requires q > 0 && Cong(q, v, (x + b) * e + t)
    ensures Cong(q, c + x * v, (x + b) * (t + x * e) + (c - b * t) % q)
  {
    var w := (x + b) * e + t;
    var m := (x + b) * (t + x * e);
    assert c + x * w == m + (c - b * t) by {
      assert x * w == (x + b) * (x * e) + x * t;
      assert m == (x + b) * (x * e) + x * t + b * t;
    }
    CongMul(q, x, x, v, w);
    CongAdd(q, c, c, x * v, x * w);
    ModIdempotent(q, c - b * t);
    CongAdd(q, m, m, (c - b * t) % q, c - b * t);
  }

  /** c(x) == (x + b) * quotient(x) + remainder. */
  lemma {:induction false} DivideEval(q: int, c: seq<int>, b: int, x: int)
    requires q > 0 && c != []
    ensures Cong(q, Eval(c, x), (x + b) * Eval(Divide(q, c, b).0, x) + Divide(q, c, b).1)
    decreases |c|
  {
    var d := Divide(q, c, b);
    if |c| == 1 {
      assert c[1..] == [];
      assert (x + b) * Eval(d.0, x) == 0;
    } else {
      var t := Divide(q, c[1..], b);
      DivideEval(q, c[1..], b, x);
      assert d.0[1..] == t.0;
      DivideStep(q, c[0], b, x, Eval(t.0, x), t.1, Eval(c[1..], x));
    }
  }
}
