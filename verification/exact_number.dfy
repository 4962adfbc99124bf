/**
 * Exact arithmetic in the ring Z[sqrt 2].
 *
 * A value Num(a, b) stands for a + b*sqrt(2) with integer a and b.  Every
 * length and every dilation comparison of the search is made with these
 * values, never with floating point.  The sign test `IsPositive` works only
 * with integer squares; the lemmas below show that it induces a total order
 * compatible with addition and with multiplication by positive numbers.
 */
module ExactNumber {

  datatype Num = Num(a: int, b: int)

  const ZERO: Num := Num(0, 0)
  const ONE: Num := Num(1, 0)
  /** The dilation bound 1 + sqrt(2). */
  const DIL: Num := Num(1, 1)

  /** An integer n seen as the number Num(n, 0). */
  function Int(n: int): Num { Num(n, 0) }

  function Add(x: Num, y: Num): Num { Num(x.a + y.a, x.b + y.b) }

  function Sub(x: Num, y: Num): Num { Num(x.a - y.a, x.b - y.b) }

  /** (a1 + b1 sqrt2)(a2 + b2 sqrt2) = (a1 a2 + 2 b1 b2) + (a1 b2 + b1 a2) sqrt2 */
  function Mul(x: Num, y: Num): Num
  {
    Num(x.a * y.a + 2 * (x.b * y.b), x.a * y.b + x.b * y.a)
  }

  function Sq(x: Num): Num { Mul(x, x) }

  /** x to the power n, by repeated multiplication on the right. */
  function Power(x: Num, n: nat): Num
  {
    if n == 0 then ONE else Mul(Power(x, n - 1), x)
  }

  /** The accumulating loop of the exponentiation operator. */
  method Pow(x: Num, exponent: nat) returns (ans: Num)
    ensures ans == Power(x, exponent)
  {
    ans := ONE;
    var i := 0;
    while i < exponent
      invariant 0 <= i <= exponent
      invariant ans == Power(x, i)
    {
      ans := Mul(ans, x);
      i := i + 1;
    }
  }

  /** The sign test: decides a + b sqrt2 > 0 by comparing a^2 with 2 b^2. */
  predicate IsPositive(x: Num)
  {
    if x.a < 0 then
      if x.b <= 0 then false else 2 * (x.b * x.b) > x.a * x.a
    else
      if x.b > 0 then true else x.a * x.a > 2 * (x.b * x.b)
  }

  predicate Less(x: Num, y: Num) { IsPositive(Sub(y, x)) }

  predicate Greater(x: Num, y: Num) { Less(y, x) }

  predicate LessEq(x: Num, y: Num) { x == y || Less(x, y) }

  predicate GreaterEq(x: Num, y: Num) { x == y || Greater(x, y) }

  /** The field norm a^2 - 2 b^2. */
  function Norm(x: Num): int { x.a * x.a - 2 * (x.b * x.b) }

  // ---------------------------------------------------------------------------
  // Integer facts used below (each nonlinear step is its own small lemma)

  lemma SquareOfSum(p: int, q: int)
    ensures (p + q) * (p + q) == p * p + 2 * (p * q) + q * q
  {
  }

  lemma SquareOfProduct(p: int, q: int)
    ensures (p * q) * (p * q) == (p * p) * (q * q)
  {
  }

  lemma MulLe(x: int, y: int, z: int)
    requires x <= y && 0 <= z
    ensures x * z <= y * z
  {
  }

  lemma MulLt(x: int, y: int, z: int)
    requires x < y && 0 < z
    ensures x * z < y * z
  {
  }

  lemma ProductPositive(x: int, y: int)
    requires 0 < x && 0 < y
    ensures 0 < x * y
  {
  }

  lemma SquareParity(a: int)
    ensures (a * a) % 2 == a % 2
  {
    var k, r := a / 2, a % 2;
    assert a == 2 * k + r;
    assert a * a == 2 * (2 * k * k + 2 * k * r) + r * r;
    assert r * r == r;
  }

  lemma HalfSquare(a: int, b: int, c: int)
    requires a == 2 * c && a * a == 2 * (b * b)
    ensures b * b == 2 * (c * c)
  {
    assert a * a == 4 * (c * c);
  }

  /** sqrt 2 is irrational: a^2 = 2 b^2 only for a = b = 0 (infinite descent). */
  lemma {:induction false} NoSquareIsTwiceSquare(a: int, b: int)
    requires a * a == 2 * (b * b)
    ensures a == 0 && b == 0
    decreases if b < 0 then -b else b
  {
    if b == 0 {
      assert a * a == 0;
    } else {
      SquareParity(a);
      var c := a / 2;
      HalfSquare(a, b, c);
      var ab := if b < 0 then -b else b;
      var ac := if c < 0 then -c else c;
      assert ab * ab == b * b && ac * ac == c * c;
      if ab <= ac {
        SquareMonotone(ab, ac);
        assert false;
      }
      NoSquareIsTwiceSquare(b, c);
    }
  }

  lemma SquareMonotone(p: int, q: int)
    requires 0 <= p <= q
    ensures p * p <= q * q
  {
    MulLe(p, q, p);
    MulLe(p, q, q);
  }

  lemma SquareStrictMonotone(p: int, q: int)
    requires 0 <= p < q
    ensures p * p < q * q
  {
    MulLe(p, q, p);
    MulLt(p, q, q);
  }

  lemma SquareReflects(p: int, q: int)
    requires 0 <= p && 0 <= q && p * p < q * q
    ensures p < q
  {
    if q <= p {
      SquareMonotone(q, p);
    }
  }

  lemma ProductStrict(x: int, y: int, z: int, w: int)
    requires x > y >= 0 && z > w >= 0
    ensures x * z > y * w
  {
    MulLt(w, z, x);
    MulLe(y, x, w);
  }

  // ---------------------------------------------------------------------------
  // The sign test as a statement about the norm

  lemma CrossTerms(a1: int, b1: int, a2: int, b2: int)
    ensures (a1 * a2) * (2 * (b1 * b2)) == 2 * ((a1 * b2) * (b1 * a2))
  {
  }

  lemma SubTimes(p: int, q: int, r: int)
    ensures (p - q) * r == p * r - q * r
  {
  }

  lemma TimesAdd(p: int, q: int, r: int)
    ensures p * (q + r) == p * q + p * r
  {
  }

  lemma NegSquare(p: int)
    ensures (-p) * (-p) == p * p
  {
  }

  lemma Bilinear(p: int, q: int, r: int, s: int)
    ensures (p - 2 * q) * (r - 2 * s) == p * r - 2 * (p * s) - 2 * (q * r) + 4 * (q * s)
  {
  }

  lemma NormMultiplicative(x: Num, y: Num)
    ensures Norm(Mul(x, y)) == Norm(x) * Norm(y)
  {
    var a1, b1, a2, b2 := x.a, x.b, y.a, y.b;
    SquareOfSum(a1 * a2, 2 * (b1 * b2));
    SquareOfSum(a1 * b2, b1 * a2);
    CrossTerms(a1, b1, a2, b2);
    SquareOfProduct(a1, a2);
    SquareOfProduct(2, b1 * b2);
    SquareOfProduct(b1, b2);
    SquareOfProduct(a1, b2);
    SquareOfProduct(b1, a2);
    Bilinear(a1 * a1, b1 * b1, a2 * a2, b2 * b2);
  }

  /**
   * A nonzero number is positive exactly when either its norm is positive and
   * its rational part is positive, or its norm is negative and its sqrt2 part
   * is positive.
   */
  lemma PositiveByNorm(x: Num)
    ensures IsPositive(x) <==> (Norm(x) > 0 && x.a > 0) || (Norm(x) < 0 && x.b > 0)
  {
    if x.a >= 0 && x.b > 0 && Norm(x) == 0 {
      NoSquareIsTwiceSquare(x.a, x.b);
    }
  }

  /** Exactly one of x > 0, x == 0 and 0 - x > 0 holds. */
  lemma Trichotomy(x: Num)
    ensures IsPositive(x) || x == ZERO || IsPositive(Sub(ZERO, x))
    ensures !(IsPositive(x) && IsPositive(Sub(ZERO, x)))
    ensures x == ZERO ==> !IsPositive(x)
  {
    var y := Sub(ZERO, x);
    assert y.a * y.a == x.a * x.a && y.b * y.b == x.b * x.b;
    PositiveByNorm(x);
    PositiveByNorm(y);
    if x != ZERO && Norm(x) == 0 {
      NoSquareIsTwiceSquare(x.a, x.b);
    }
  }

  // ---------------------------------------------------------------------------
  // Positivity is closed under addition and multiplication

  /** u - v sqrt2 > 0 and -s + t sqrt2 > 0 with u - s >= 0 > t - v: then (u - s)^2 > 2 (v - t)^2. */
  lemma MixedSumRationalPart(u: int, v: int, s: int, t: int)
    requires u > 0 && v > 0 && s > 0 && t > 0
    requires u * u > 2 * (v * v) && 2 * (t * t) > s * s
    requires u >= s && t < v
    ensures (u - s) * (u - s) > 2 * ((v - t) * (v - t))
  {
    var p, q := u - s, v - t;
    if p * p <= 2 * (q * q) {
      SquareOfSum(p, s);
      SquareOfSum(q, t);
      assert p * s > 2 * (q * t);
      ProductPositive(q, t);
      SquareStrictMonotone(2 * (q * t), p * s);
      SquareOfProduct(p, s);
      SquareOfProduct(2, q * t);
      SquareOfProduct(q, t);
      MulLe(p * p, 2 * (q * q), s * s);
      ProductPositive(q, q);
      MulLt(s * s, 2 * (t * t), 2 * (q * q));
      assert false;
    }
  }

  /** u - v sqrt2 > 0 and -s + t sqrt2 > 0 with u - s < 0 <= t - v: then 2 (t - v)^2 > (s - u)^2. */
  lemma MixedSumRootPart(u: int, v: int, s: int, t: int)
    requires u > 0 && v > 0 && s > 0 && t > 0
    requires u * u > 2 * (v * v) && 2 * (t * t) > s * s
    requires u < s && t >= v
    ensures 2 * ((t - v) * (t - v)) > (s - u) * (s - u) && t > v
  {
    var p, q := s - u, t - v;
    if 2 * (q * q) <= p * p {
      SquareOfSum(u, p);
      SquareOfSum(v, q);
      assert 2 * (v * q) > u * p;
      ProductPositive(u, p);
      SquareStrictMonotone(u * p, 2 * (v * q));
      SquareOfProduct(u, p);
      SquareOfProduct(2, v * q);
      SquareOfProduct(v, q);
      assert q != 0;
      MulLe(2 * (q * q), p * p, u * u);
      ProductPositive(q, q);
      MulLt(2 * (v * v), u * u, 2 * (q * q));
      assert false;
    }
    ProductPositive(p, p);
  }

  /** The one hard case of the sum: a - b'sqrt2 with a dominating plus -a' + b sqrt2 with b dominating. */
  lemma PositiveAddMixed(x: Num, y: Num)
    requires x.a > 0 && x.b < 0 && x.a * x.a > 2 * (x.b * x.b)
    requires y.a < 0 && y.b > 0 && 2 * (y.b * y.b) > y.a * y.a
    ensures IsPositive(Add(x, y))
  {
    var u, v, s, t := x.a, -x.b, -y.a, y.b;
    assert v * v == x.b * x.b && s * s == y.a * y.a;
    var sum := Add(x, y);
    assert sum == Num(u - s, t - v);
    if u >= s && t >= v {
      if u == s && t == v {
        SquareMonotone(u, s);
        SquareMonotone(v, t);
        assert false;
      }
    } else if u < s && t < v {
      SquareStrictMonotone(u, s);
      SquareStrictMonotone(t, v);
      assert false;
    } else if u >= s {
      MixedSumRationalPart(u, v, s, t);
      assert (t - v) * (t - v) == (v - t) * (v - t);
    } else {
      MixedSumRootPart(u, v, s, t);
      assert (u - s) * (u - s) == (s - u) * (s - u);
    }
  }

  /** Two numbers whose rational parts dominate: (a1 + a2)^2 > 2 (b1 + b2)^2. */
  lemma DominantSum(a1: int, b1: int, a2: int, b2: int)
    requires a1 > 0 && a2 > 0 && b1 * b2 >= 0
    requires a1 * a1 > 2 * (b1 * b1) && a2 * a2 > 2 * (b2 * b2)
    ensures (a1 + a2) * (a1 + a2) > 2 * ((b1 + b2) * (b1 + b2))
  {
    ProductStrict(a1 * a1, 2 * (b1 * b1), a2 * a2, 2 * (b2 * b2));
    SquareOfProduct(a1, a2);
    SquareOfProduct(2, b1 * b2);
    SquareOfProduct(b1, b2);
    ProductPositive(a1, a2);
    SquareReflects(2 * (b1 * b2), a1 * a2);
    SquareOfSum(a1, a2);
    SquareOfSum(b1, b2);
  }

  lemma PositiveAdd(x: Num, y: Num)
    requires IsPositive(x) && IsPositive(y)
    ensures IsPositive(Add(x, y))
  {
    var s := Add(x, y);
    if x.a > 0 && x.b < 0 && y.a < 0 && y.b > 0 {
      PositiveAddMixed(x, y);
    } else if y.a > 0 && y.b < 0 && x.a < 0 && x.b > 0 {
      PositiveAddMixed(y, x);
      assert Add(y, x) == s;
    } else if x.b < 0 && y.b < 0 {
      ProductPositive(-x.b, -y.b);
      DominantSum(x.a, x.b, y.a, y.b);
    } else if x.a < 0 && y.a < 0 {
      // both have a dominating sqrt2 part
      ProductPositive(-x.a, -y.a);
      ProductStrict(2 * (x.b * x.b), x.a * x.a, 2 * (y.b * y.b), y.a * y.a);
      SquareOfProduct(x.a, y.a);
      SquareOfProduct(2, x.b * y.b);
      SquareOfProduct(x.b, y.b);
      ProductPositive(x.b, y.b);
      SquareReflects(x.a * y.a, 2 * (x.b * y.b));
      SquareOfSum(x.a, y.a);
      SquareOfSum(x.b, y.b);
    } else if x.a >= 0 && x.b >= 0 {
      PositiveAddNonnegative(x, y);
    } else {
      PositiveAddNonnegative(y, x);
      assert Add(y, x) == s;
    }
  }

  /** The sum of a positive number and one with two nonnegative parts. */
  lemma PositiveAddNonnegative(x: Num, y: Num)
    requires x.a >= 0 && x.b >= 0 && IsPositive(x) && IsPositive(y)
    ensures IsPositive(Add(x, y))
  {
    var s := Add(x, y);
    if y.a >= 0 && y.b >= 0 {
    } else if y.b < 0 {
      // y = a - b'sqrt2 with a dominating
      if s.b < 0 {
        SquareMonotone(y.a, s.a);
        SquareMonotone(-s.b, -y.b);
        NegSquare(s.b);
        NegSquare(y.b);
      }
    } else {
      // y = -a' + b sqrt2 with b dominating
      if s.a < 0 {
        SquareMonotone(y.b, s.b);
        SquareMonotone(-s.a, -y.a);
        NegSquare(s.a);
        NegSquare(y.a);
      }
    }
  }

  /** The absolute value of an integer. */
  function Abs(p: int): nat { if p < 0 then -p else p }

  lemma AbsSquare(p: int)
    ensures Abs(p) * Abs(p) == p * p
  {
  }

  /** a1 > sqrt2 |b1| and a2 > sqrt2 |b2| give a1 a2 > 2 |b1 b2|. */
  lemma DominantProduct(a1: int, b1: int, a2: int, b2: int)
    requires a1 > 0 && a2 > 0
    requires a1 * a1 > 2 * (b1 * b1) && a2 * a2 > 2 * (b2 * b2)
    ensures a1 * a2 + 2 * (b1 * b2) > 0
  {
    ProductStrict(a1 * a1, 2 * (b1 * b1), a2 * a2, 2 * (b2 * b2));
    SquareOfProduct(a1, a2);
    SquareOfProduct(2, b1 * b2);
    SquareOfProduct(b1, b2);
    AbsSquare(2 * (b1 * b2));
    ProductPositive(a1, a2);
    SquareReflects(Abs(2 * (b1 * b2)), a1 * a2);
  }

  /** a1 > sqrt2 |b1| and sqrt2 b2 > |a2| give a1 b2 > |b1 a2|. */
  lemma CrossProduct(a1: int, b1: int, a2: int, b2: int)
    requires a1 > 0 && b2 > 0
    requires a1 * a1 > 2 * (b1 * b1) && 2 * (b2 * b2) > a2 * a2
    ensures a1 * b2 + b1 * a2 > 0
  {
    ProductStrict(a1 * a1, 2 * (b1 * b1), 2 * (b2 * b2), a2 * a2);
    SquareOfProduct(a1, b2);
    SquareOfProduct(b1, a2);
    AbsSquare(b1 * a2);
    ProductPositive(a1, b2);
    SquareReflects(Abs(b1 * a2), a1 * b2);
  }

  /** sqrt2 b1 > |a1| and sqrt2 b2 > |a2| give 2 b1 b2 > |a1 a2|. */
  lemma RootProduct(a1: int, b1: int, a2: int, b2: int)
    requires b1 > 0 && b2 > 0
    requires 2 * (b1 * b1) > a1 * a1 && 2 * (b2 * b2) > a2 * a2
    ensures a1 * a2 + 2 * (b1 * b2) > 0
  {
    ProductStrict(2 * (b1 * b1), a1 * a1, 2 * (b2 * b2), a2 * a2);
    SquareOfProduct(a1, a2);
    SquareOfProduct(2, b1 * b2);
    SquareOfProduct(b1, b2);
    AbsSquare(a1 * a2);
    ProductPositive(b1, b2);
    SquareReflects(Abs(a1 * a2), 2 * (b1 * b2));
  }

  lemma PositiveMul(x: Num, y: Num)
    requires IsPositive(x) && IsPositive(y)
    ensures IsPositive(Mul(x, y))
  {
    var m := Mul(x, y);
    PositiveByNorm(x);
    PositiveByNorm(y);
    NormMultiplicative(x, y);
    PositiveByNorm(m);
    if Norm(x) > 0 && Norm(y) > 0 {
      DominantProduct(x.a, x.b, y.a, y.b);
      ProductPositive(Norm(x), Norm(y));
    } else if Norm(x) > 0 && Norm(y) < 0 {
      CrossProduct(x.a, x.b, y.a, y.b);
      ProductPositive(Norm(x), -Norm(y));
    } else if Norm(x) < 0 && Norm(y) > 0 {
      CrossProduct(y.a, y.b, x.a, x.b);
      ProductPositive(-Norm(x), Norm(y));
    } else {
      RootProduct(x.a, x.b, y.a, y.b);
      ProductPositive(-Norm(x), -Norm(y));
    }
  }

  // ---------------------------------------------------------------------------
  // Ring laws of the operators

  lemma MulCommutative(x: Num, y: Num)
    ensures Mul(x, y) == Mul(y, x)
  {
  }

  lemma MulAssociative(x: Num, y: Num, z: Num)
    ensures Mul(Mul(x, y), z) == Mul(x, Mul(y, z))
  {
    AssociativeParts(x.a, x.b, y.a, y.b, z.a, z.b);
  }

  lemma AssociativeParts(a1: int, b1: int, a2: int, b2: int, a3: int, b3: int)
    ensures (a1 * a2 + 2 * (b1 * b2)) * a3 + 2 * ((a1 * b2 + b1 * a2) * b3)
         == a1 * (a2 * a3 + 2 * (b2 * b3)) + 2 * (b1 * (a2 * b3 + b2 * a3))
    ensures (a1 * a2 + 2 * (b1 * b2)) * b3 + (a1 * b2 + b1 * a2) * a3
         == a1 * (a2 * b3 + b2 * a3) + b1 * (a2 * a3 + 2 * (b2 * b3))
  {
  }

  lemma MulDistributesOverAdd(x: Num, y: Num, z: Num)
    ensures Mul(x, Add(y, z)) == Add(Mul(x, y), Mul(x, z))
  {
    TimesAdd(x.a, y.a, z.a);
    TimesAdd(x.b, y.b, z.b);
    TimesAdd(x.a, y.b, z.b);
    TimesAdd(x.b, y.a, z.a);
  }

  lemma AddZeroLeft(x: Num)
    ensures Add(ZERO, x) == x && Add(x, ZERO) == x
  {
  }

  lemma AddAssociative(x: Num, y: Num, z: Num)
    ensures Add(Add(x, y), z) == Add(x, Add(y, z))
  {
  }

  lemma MulOneIdentity(x: Num)
    ensures Mul(ONE, x) == x && Mul(x, ONE) == x
  {
  }

  lemma PowerTwo(x: Num)
    ensures Power(x, 2) == Sq(x)
  {
    calc {
      Power(x, 2);
      Mul(Power(x, 1), x);
      Mul(Mul(ONE, x), x);
      { MulOneIdentity(x); }
      Mul(x, x);
    }
  }

  /** x^(m+n) = x^m * x^n */
  lemma {:induction false} PowerAdd(x: Num, m: nat, n: nat)
    ensures Power(x, m + n) == Mul(Power(x, m), Power(x, n))
  {
    if n == 0 {
      MulOneIdentity(Power(x, m));
    } else {
      PowerAdd(x, m, n - 1);
      MulAssociative(Power(x, m), Power(x, n - 1), x);
    }
  }

  /** (1 + sqrt2)^2 = 3 + 2 sqrt2 */
  lemma DilationSquared()
    ensures Power(DIL, 2) == Num(3, 2)
  {
    PowerTwo(DIL);
  }

  // ---------------------------------------------------------------------------
  // The order

  lemma LessIrreflexive(x: Num)
    ensures !Less(x, x)
  {
  }

  lemma LessTransitive(x: Num, y: Num, z: Num)
    requires Less(x, y) && Less(y, z)
    ensures Less(x, z)
  {
    PositiveAdd(Sub(z, y), Sub(y, x));
    assert Add(Sub(z, y), Sub(y, x)) == Sub(z, x);
  }

  /** Exactly one of x < y, x == y, x > y. */
  lemma LessTrichotomy(x: Num, y: Num)
    ensures Less(x, y) || x == y || Greater(x, y)
    ensures !(Less(x, y) && Greater(x, y))
    ensures x == y ==> !Less(x, y)
  {
    Trichotomy(Sub(y, x));
    assert Sub(ZERO, Sub(y, x)) == Sub(x, y);
  }

  lemma LessEqTransitive(x: Num, y: Num, z: Num)
    requires LessEq(x, y) && LessEq(y, z)
    ensures LessEq(x, z)
  {
    if x != y && y != z {
      LessTransitive(x, y, z);
    }
  }

  lemma LessLessEqTransitive(x: Num, y: Num, z: Num)
    requires (Less(x, y) && LessEq(y, z)) || (LessEq(x, y) && Less(y, z))
    ensures Less(x, z)
  {
    if x != y && y != z {
      LessTransitive(x, y, z);
    }
  }

  /** Adding the same number on both sides keeps the order. */
  lemma LessAddCompatible(x: Num, y: Num, z: Num)
    ensures Less(x, y) <==> Less(Add(x, z), Add(y, z))
  {
    assert Sub(Add(y, z), Add(x, z)) == Sub(y, x);
  }

  /** Multiplying both sides by a positive number keeps the order. */
  lemma LessMulPositive(x: Num, y: Num, z: Num)
    requires Less(x, y) && IsPositive(z)
    ensures Less(Mul(x, z), Mul(y, z))
  {
    PositiveMul(Sub(y, x), z);
    var d := Sub(y, x);
    SubTimes(y.a, x.a, z.a);
    SubTimes(y.b, x.b, z.b);
    SubTimes(y.a, x.a, z.b);
    SubTimes(y.b, x.b, z.a);
    assert Mul(d, z) == Sub(Mul(y, z), Mul(x, z));
  }

  /** The embedding of the integers keeps their order. */
  lemma IntOrder(m: int, n: int)
    ensures Less(Int(m), Int(n)) <==> m < n
  {
  }

  /** Squaring is strictly increasing on the nonnegative numbers. */
  lemma SquareStrictlyIncreasing(x: Num, y: Num)
    requires LessEq(ZERO, x) && Less(x, y)
    ensures Less(Sq(x), Sq(y))
  {
    LessLessEqTransitive(ZERO, x, y);
    assert IsPositive(y) by { assert Sub(y, ZERO) == y; }
    var s := Add(y, x);
    assert IsPositive(s) by {
      if x == ZERO {
        assert s == y;
      } else {
        assert Sub(x, ZERO) == x;
        PositiveAdd(y, x);
      }
    }
    PositiveMul(Sub(y, x), s);
    DifferenceOfSquares(x, y);
  }

  lemma DifferenceOfSquares(x: Num, y: Num)
    ensures Mul(Sub(y, x), Add(y, x)) == Sub(Sq(y), Sq(x))
  {
    DifferenceProducts(y.a, x.a, y.a, x.a);
    DifferenceProducts(y.b, x.b, y.b, x.b);
    DifferenceProducts(y.a, x.a, y.b, x.b);
    DifferenceProducts(y.b, x.b, y.a, x.a);
  }

  lemma DifferenceProducts(p: int, q: int, r: int, s: int)
    ensures (p - q) * (r + s) == p * r + p * s - q * r - q * s
  {
  }

  /** On nonnegative numbers, comparing squares compares the numbers. */
  lemma SquareReflectsOrder(x: Num, y: Num)
    requires LessEq(ZERO, x) && LessEq(ZERO, y)
    ensures LessEq(Sq(x), Sq(y)) <==> LessEq(x, y)
  {
    LessTrichotomy(x, y);
    LessTrichotomy(Sq(x), Sq(y));
    if Less(x, y) {
      SquareStrictlyIncreasing(x, y);
    } else if Less(y, x) {
      SquareStrictlyIncreasing(y, x);
    }
  }

  /** 3 < 3 sqrt2 */
  lemma ThreeBelowThreeSqrtTwo()
    ensures Less(Num(3, 0), Num(0, 3))
  {
  }

  // ---------------------------------------------------------------------------
  // Numbers with nonnegative parts, as path lengths are

  predicate Nonneg(x: Num) { x.a >= 0 && x.b >= 0 }

  lemma NonnegAtLeastZero(x: Num)
    requires Nonneg(x)
    ensures LessEq(ZERO, x)
  {
  }

  /** Adding a number with nonnegative parts never decreases. */
  lemma AddNonnegGrows(x: Num, y: Num)
    requires Nonneg(y)
    ensures LessEq(x, Add(x, y))
  {
    assert Sub(Add(x, y), x) == y;
  }

  /** The square is monotone on numbers with nonnegative parts. */
  lemma SquareMonotoneNonneg(x: Num, y: Num)
    requires Nonneg(x) && Nonneg(y) && LessEq(x, y)
    ensures LessEq(Power(x, 2), Power(y, 2))
  {
    NonnegAtLeastZero(x);
    NonnegAtLeastZero(y);
    SquareReflectsOrder(x, y);
    PowerTwo(x);
    PowerTwo(y);
  }

  /** Adding the same number on the left keeps a non-strict order. */
  lemma LessEqAddLeft(z: Num, x: Num, y: Num)
    requires LessEq(x, y)
    ensures LessEq(Add(z, x), Add(z, y))
  {
    assert Sub(Add(z, y), Add(z, x)) == Sub(y, x);
  }

  /** Sums of ordered pairs are ordered. */
  lemma AddMonotone(x1: Num, y1: Num, x2: Num, y2: Num)
    requires LessEq(x1, y1) && LessEq(x2, y2)
    ensures LessEq(Add(x1, x2), Add(y1, y2))
  {
    LessEqAddLeft(x2, x1, y1);
    assert Add(x2, x1) == Add(x1, x2) && Add(x2, y1) == Add(y1, x2);
    LessEqAddLeft(y1, x2, y2);
    LessEqTransitive(Add(x1, x2), Add(y1, x2), Add(y1, y2));
  }

  /** a + b <= a + b sqrt2 */
  lemma PartsBelowValue(x: Num)
    requires Nonneg(x)
    ensures LessEq(Int(x.a + x.b), x)
  {
    assert Sub(x, Int(x.a + x.b)) == Num(-x.b, x.b);
  }

  /** a + b sqrt2 <= a + 2 |b| */
  lemma ValueBelowInt(c: Num)
    ensures LessEq(c, Int(c.a + 2 * Abs(c.b)))
  {
    assert Sub(Int(c.a + 2 * Abs(c.b)), c) == Num(2 * Abs(c.b), -c.b);
    if c.b != 0 {
      AbsSquare(c.b);
      assert (2 * Abs(c.b)) * (2 * Abs(c.b)) == 4 * (Abs(c.b) * Abs(c.b));
    }
  }

  /** A length below c has fewer than c.a + 2|c.b| unit parts. */
  lemma PartsBelowBound(x: Num, c: Num)
    requires Nonneg(x) && Less(x, c)
    ensures x.a + x.b < c.a + 2 * Abs(c.b)
  {
    PartsBelowValue(x);
    ValueBelowInt(c);
    LessLessEqTransitive(Int(x.a + x.b), x, c);
    LessLessEqTransitive(Int(x.a + x.b), c, Int(c.a + 2 * Abs(c.b)));
    IntOrder(x.a + x.b, c.a + 2 * Abs(c.b));
  }

  /** (1 + sqrt2)^2 d = 3 d + 2 d sqrt2 */
  lemma DilatedValue(d: int)
    ensures Mul(Power(DIL, 2), Int(d)) == Num(3 * d, 2 * d)
  {
    DilationSquared();
    ScaleThreeTwo(d);
  }

  lemma ScaleThreeTwo(d: int)
    ensures Mul(Num(3, 2), Int(d)) == Num(3 * d, 2 * d)
  {
  }

  /** (1 + sqrt2)^2 d <= 6 d */
  lemma DilatedBelowSix(d: nat)
    ensures LessEq(Num(3 * d, 2 * d), Int(6 * d))
  {
    assert Sub(Int(6 * d), Num(3 * d, 2 * d)) == Num(3 * d, -2 * d);
    if d > 0 {
      ThreeBeatsTwoSqrtTwo(d);
    }
  }

  lemma ThreeBeatsTwoSqrtTwo(d: int)
    requires d > 0
    ensures IsPositive(Num(3 * d, -2 * d))
  {
    SquareOfProduct(3, d);
    SquareOfProduct(-2, d);
    ProductPositive(d, d);
    var dd := d * d;
    assert (3 * d) * (3 * d) == 9 * dd;
    assert (-2 * d) * (-2 * d) == 4 * dd;
  }

  /** A square a^2 + 2 b^2 is at least a + b for nonnegative a and b. */
  lemma SquareAtLeastParts(a: int, b: int)
    requires a >= 0 && b >= 0
    ensures a * a + 2 * (b * b) >= a + b
  {
    if a > 0 { MulLe(1, a, a); }
    if b > 0 { MulLe(1, b, b); }
  }

  /**
   * A nonnegative s whose square x is within (1 + sqrt2)^2 d = 3d + 2d sqrt2
   * has rational and irrational parts summing to at most 6d.
   */
  lemma SquareBoundParts(s: Num, x: Num, d: nat)
    requires Nonneg(s) && x == Power(s, 2) && LessEq(x, Num(3 * d, 2 * d))
    ensures s.a + s.b <= 6 * d
  {
    var n := RationalPart(s);
    RationalBound(x, n, d);
  }

  /** A number at most (1 + sqrt2)^2 d has its rational lower bound n at most 6 d. */
  lemma RationalBound(x: Num, n: int, d: nat)
    requires LessEq(x, Num(3 * d, 2 * d)) && LessEq(Int(n), x)
    ensures n <= 6 * d
  {
    if n > 6 * d {
      DilatedBelowSix(d);
      IntOrder(6 * d, n);
      LessChain(Num(3 * d, 2 * d), Int(6 * d), Int(n), x);
    }
  }

  lemma LessChain(b: Num, c: Num, m: Num, x: Num)
    requires LessEq(b, c) && Less(c, m) && LessEq(m, x)
    ensures Less(b, x) && !LessEq(x, b)
  {
    LessLessEqTransitive(c, m, x);
    LessLessEqTransitive(b, c, x);
    LessTrichotomy(x, b);
  }

  /** The rational part n = a^2 + 2 b^2 of s^2: at least a + b, and at most s^2. */
  lemma RationalPart(s: Num) returns (n: int)
    requires Nonneg(s)
    ensures n >= s.a + s.b && LessEq(Int(n), Power(s, 2))
  {
    PowerTwo(s);
    n := s.a * s.a + 2 * (s.b * s.b);
    SquareAtLeastParts(s.a, s.b);
    var c := s.a * s.b;
    MulLe(0, s.a, s.b);
    assert s.b * s.a == c;
    assert Sq(s) == Num(n, 2 * c);
    GapLessEq(n, 2 * c);
  }

  lemma GapLessEq(n: int, c: int)
    requires c >= 0
    ensures LessEq(Int(n), Num(n, c))
  {
    assert Sub(Num(n, c), Int(n)) == Num(0, c);
  }
}
