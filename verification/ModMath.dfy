/**
 Modular arithmetic on 64-bit signed integers: the file-scope modulus and the functions that use it. The type int64
 makes every intermediate result a proof obligation, so a verified method has no signed overflow.
 */
module ModMath {
  import opened NumberTheory

  const MAX := 0x7fff_ffff_ffff_ffff
  newtype int64 = x: int | -MAX - 1 <= x <= MAX

  predicate Fits(x: int) { -MAX - 1 <= x <= MAX }

  /** The largest modulus whose residues can be multiplied without overflow: one more than the integer root of MAX. */
  const SAFE_MOD := 3037000500

  /** The remainder of C++, which truncates the quotient toward zero. */
  function Rem(a: int, m: int): int
    requires m > 0
  {
    if a >= 0 then a % m else -((-a) % m)
  }

  function Rem64(a: int64, m: int64): (r: int64)
    requires m > 0
    ensures r as int == Rem(a as int, m as int)
  {
    Rem(a as int, m as int) as int64
  }

  // ----- specification functions

  function Product(x: int, y: int, m: int): int
    requires m > 0
  {
    Rem(x * y, m)
  }

  function Power(x: int, y: nat, m: int): int
    requires m > 0
  {
    Rem(Pow(x, y), m)
  }

  function Inverse(y: int, m: int): int
    requires m >= 2
  {
    Power(y, m - 2, m)
  }

  function Quotient(x: int, y: int, m: int): int
    requires m >= 2
  {
    Product(x, Inverse(y, m), m)
  }

  // ----- the truncated remainder

  lemma RemRange(a: int, m: int)
    requires m > 0
    ensures -m < Rem(a, m) < m && Rem(a, m) % m == a % m
    ensures if a >= 0 then Rem(a, m) >= 0 else Rem(a, m) <= 0
  {
    ModMod(a, m);
    if a < 0 {
      ModMod(-a, m);
      ModNeg((-a) % m, -a, m);
    }
  }

  /** Congruence, range and sign determine the truncated remainder. */
  lemma RemUnique(r: int, a: int, m: int)
    requires m > 0 && -m < r < m && r % m == a % m
    requires if a >= 0 then r >= 0 else r <= 0
    ensures r == Rem(a, m)
  {
    if a >= 0 {
      DivModUnique(r, 0, r, m);
    } else {
      ModNeg(r, a, m);
      DivModUnique(-r, 0, -r, m);
    }
  }

  lemma RemOfCongruent(p: int, q: int, m: int)
    requires m > 0 && p % m == q % m && (if q >= 0 then p >= 0 else p <= 0)
    ensures Rem(p, m) == Rem(q, m)
  {
    RemRange(p, m);
    RemUnique(Rem(p, m), q, m);
  }

  lemma ProductSign(x: int, y: int)
    ensures (x >= 0 && y >= 0) || (x <= 0 && y <= 0) ==> x * y >= 0
    ensures (x >= 0 && y <= 0) || (x <= 0 && y >= 0) ==> x * y <= 0
    ensures x < 0 < y || y < 0 < x ==> x * y < 0
  {
  }

  lemma SameSigns(a: int, b: int, c: int, d: int)
    requires (if a >= 0 then c >= 0 else c <= 0) && (if b >= 0 then d >= 0 else d <= 0)
    requires (a == 0 ==> c == 0) && (b == 0 ==> d == 0)
    ensures if a * b >= 0 then c * d >= 0 else c * d <= 0
  {
    ProductSign(a, b);
    ProductSign(c, d);
  }

  /** Reducing the factors first does not change the truncated remainder of a product. */
  lemma RemOfProduct(a: int, b: int, m: int)
    requires m > 0
    ensures Rem(Rem(a, m) * Rem(b, m), m) == Rem(a * b, m)
  {
    RemRange(a, m);
    RemRange(b, m);
    var c, d := Rem(a, m), Rem(b, m);
    ModMul(c, a, d, b, m);
    DivModUnique(0, 0, 0, m);
    SameSigns(a, b, c, d);
    RemOfCongruent(c * d, a * b, m);
  }

  lemma {:induction false} PowSign(x: int, y: nat)
    ensures x >= 0 || y % 2 == 0 ==> Pow(x, y) >= 0
    ensures x < 0 && y % 2 == 1 ==> Pow(x, y) < 0
    ensures x < 0 && y % 2 == 0 ==> Pow(x, y) > 0
  {
    if y > 0 {
      PowSign(x, y - 1);
      ProductSign(x, Pow(x, y - 1));
    }
  }

  /** Congruence, range and sign: what makes r the truncated remainder of a. */
  predicate Truncates(r: int, a: int, m: int)
    requires m > 0
  {
    r % m == a % m && -m < r < m && if a >= 0 then r >= 0 else r <= 0
  }

  // ----- overflow

  lemma ProductMonotone(p: int, q: int, b: int)
    requires 0 <= p <= b && 0 <= q <= b
    ensures 0 <= p * q <= b * b
  {
    assert p * q <= p * b <= b * b;
  }

  lemma ProductBound(x: int, y: int, b: int)
    requires -b <= x <= b && -b <= y <= b
    ensures -(b * b) <= x * y <= b * b
  {
    var p, q := if x < 0 then -x else x, if y < 0 then -y else y;
    ProductMonotone(p, q, b);
    assert x * y == p * q || x * y == -(p * q);
  }

  lemma SafeProduct(x: int, y: int)
    requires -SAFE_MOD < x < SAFE_MOD && -SAFE_MOD < y < SAFE_MOD
    ensures Fits(x * y)
  {
    ProductBound(x, y, SAFE_MOD - 1);
  }

  /** The bound on the modulus is exact: one more, and the product of the largest residue with itself overflows. */
  lemma ResiduesMultiplyIff(m: int)
    requires m > 0
    ensures (forall x, y :: 0 <= x < m && 0 <= y < m ==> Fits(x * y)) <==> m <= SAFE_MOD
  {
    if m <= SAFE_MOD {
      forall x, y | 0 <= x < m && 0 <= y < m ensures Fits(x * y) {
        SafeProduct(x, y);
      }
    } else {
      assert !Fits(SAFE_MOD * SAFE_MOD);
    }
  }

  // ----- the inverse

  /** One step of square-and-multiply keeps res * b^e. */
  lemma SquareStep(res: int, b: int, e: nat, m: int, res': int, b': int)
    requires m > 0 && e > 0
    requires b' % m == (b * b) % m
    requires res' % m == (if e % 2 == 1 then res * b else res) % m
    ensures (res' * Pow(b', e / 2)) % m == (res * Pow(b, e)) % m
  {
    var h := e / 2;
    PowMod(b', b * b, h, m);
    PowSquare(b, h);
    if e % 2 == 1 {
      assert Pow(b, e) == b * Pow(b, 2 * h);
      ModMul(res', res * b, Pow(b', h), Pow(b, 2 * h), m);
      assert (res * b) * Pow(b, 2 * h) == res * (b * Pow(b, 2 * h));
    } else {
      ModMul(res', res, Pow(b', h), Pow(b, 2 * h), m);
    }
  }

  /** For a prime modulus the power m - 2 is an inverse. */
  lemma InverseOfPrime(y: int, m: int)
    requires IsPrime(m) && y % m != 0
    ensures (y * Inverse(y, m)) % m == 1
  {
    RemRange(Pow(y, m - 2), m);
    ModMul(y, y, Inverse(y, m), Pow(y, m - 2), m);
    assert y * Pow(y, m - 2) == Pow(y, m - 1);
    Fermat(y, m);
  }

  lemma CommonFactor(a: int, b: int, m: int, z: int, q: int)
    requires m == a * b && a * z == q * m + 1
    ensures a * (z - q * b) == 1
  {
    assert q * (a * b) == a * (q * b);
  }

  lemma NoUnit(a: int, d: int)
    requires a >= 2
    ensures a * d != 1
  {
    assert d >= 1 ==> a * d >= a;
    assert d <= 0 ==> a * d <= 0;
  }

  lemma FactorHasNoInverse(a: int, b: int, m: int)
    requires 2 <= a && 2 <= b && a * b == m
    ensures 1 <= a < m && Product(a, Inverse(a, m), m) != 1
  {
    assert a * b >= a * 2;
    var z := Inverse(a, m);
    PowSign(a, m - 2);
    RemRange(Pow(a, m - 2), m);
    ProductSign(a, z);
    if (a * z) % m == 1 {
      CommonFactor(a, b, m, z, (a * z) / m);
      NoUnit(a, z - (a * z) / m * b);
    }
  }

  /** The inverse works for every residue exactly when the modulus is prime. */
  lemma InverseIffPrime(m: int)
    requires m >= 2
    ensures IsPrime(m) <==> forall y :: 1 <= y < m ==> Product(y, Inverse(y, m), m) == 1
  {
    if IsPrime(m) {
      forall y | 1 <= y < m ensures Product(y, Inverse(y, m), m) == 1 {
        DivModUnique(y, 0, y, m);
        InverseOfPrime(y, m);
        PowSign(y, m - 2);
        RemRange(Pow(y, m - 2), m);
        ProductSign(y, Inverse(y, m));
      }
    } else {
      var a, b :| 2 <= a && 2 <= b && a * b == m;
      FactorHasNoInverse(a, b, m);
      assert 1 <= a < m;
    }
  }

  /** Multiplying x y by an inverse of y gives x back. */
  lemma CancelInverse(x: int, y: int, z: int, p: int, m: int)
    requires m >= 2 && p % m == (x * y) % m && (y * z) % m == 1
    ensures (p * z) % m == x % m
  {
    ModMul(p, x * y, z, z, m);
    assert (x * y) * z == x * (y * z);
    DivModUnique(1, 0, 1, m);
    ModMul(x, x, y * z, 1, m);
  }

  /** Division undoes multiplication. */
  lemma DivideUndoesMul(x: int, y: int, m: int)
    requires IsPrime(m) && 0 <= x < m && y % m != 0 && y >= 0
    ensures Quotient(Product(x, y, m), y, m) == x
  {
    var z, p := Inverse(y, m), Product(x, y, m);
    InverseOfPrime(y, m);
    ProductSign(x, y);
    RemRange(x * y, m);
    CancelInverse(x, y, z, p, m);
    PowSign(y, m - 2);
    RemRange(Pow(y, m - 2), m);
    ProductSign(p, z);
    DivModUnique(x, 0, x, m);
  }

  /** Whatever the signs, a quotient times its divisor is congruent to the dividend. */
  lemma QuotientTimesDivisor(x: int, y: int, m: int)
    requires IsPrime(m) && y % m != 0
    ensures (Quotient(x, y, m) * y) % m == x % m
  {
    var z := Inverse(y, m);
    InverseOfPrime(y, m);
    RemRange(x * z, m);
    assert y * z == z * y;
    CancelInverse(x, z, y, Quotient(x, y, m), m);
  }

  // ----- the loop of QuickPower

  /** What is still to be multiplied makes up the power. */
  ghost predicate Completes(x: int, y: nat, m: int, res: int, b: int, e: nat)
    requires m > 0
  {
    (res * Pow(b, e)) % m == Pow(x, y) % m
  }

  /** Ranges and signs of res, base b and exponent e on the way from x to the power y. */
  ghost predicate InRange(x: int, y: nat, m: int, res: int, b: int, e: int) {
    && m > 0 && 0 <= e <= y
    && (e == y ==> res == 1 && b == x)
    && (e < y ==> 0 <= b < m)
    && (e < y ==> if x < 0 && y % 2 == 1 then -m < res <= 0 else 0 <= res && (res < m || res == 1))
    && (e == 0 < y ==> -m < res < m)
  }

  ghost predicate Halfway(x: int, y: nat, m: int, res: int, b: int, e: int) {
    InRange(x, y, m, res, b, e) && Completes(x, y, m, res, b, e)
  }

  lemma SquareGrows(x: int)
    ensures x * x >= x && x * x >= -x
  {
    ProductSign(x, x - 1);
    ProductSign(x, x + 1);
    assert x * (x - 1) == x * x - x && x * (x + 1) == x * x + x;
  }

  lemma SquareFits(x: int)
    requires Fits(x * x)
    ensures Fits(x)
  {
    SquareGrows(x);
  }

  lemma HalfwayFits(x: int, y: nat, m: int, res: int, b: int, e: int)
    requires Halfway(x, y, m, res, b, e) && e > 0 && m <= SAFE_MOD && Fits(x * x)
    ensures Fits(res * b) && Fits(b * b)
  {
    if e < y {
      SafeProduct(res, b);
      SafeProduct(b, b);
    } else {
      SquareFits(x);
    }
  }

  /** The next res, if the exponent is odd, has the sign of the product. */
  lemma StaysInRange(x: int, y: nat, m: int, res: int, b: int, e: int, res': int, b': int)
    requires InRange(x, y, m, res, b, e) && e > 0 && 0 <= b' < m
    requires e % 2 == 0 ==> res' == res
    requires e % 2 == 1 ==> -m < res' < m
    requires e % 2 == 1 && ((res >= 0 && b >= 0) || (res <= 0 && b <= 0)) ==> res' >= 0
    requires e % 2 == 1 && ((res >= 0 && b <= 0) || (res <= 0 && b >= 0)) ==> res' <= 0
    ensures InRange(x, y, m, res', b', e / 2)
  {
  }

  lemma RemOfFactors(a: int, b: int, m: int)
    requires m > 0
    ensures Rem(a * b, m) % m == (a * b) % m && -m < Rem(a * b, m) < m
    ensures (a >= 0 && b >= 0) || (a <= 0 && b <= 0) ==> Rem(a * b, m) >= 0
    ensures (a >= 0 && b <= 0) || (a <= 0 && b >= 0) ==> Rem(a * b, m) <= 0
  {
    ProductSign(a, b);
    RemRange(a * b, m);
  }

  lemma StaysComplete(x: int, y: nat, m: int, res: int, b: int, e: nat, res': int, b': int)
    requires m > 0 && e > 0 && Completes(x, y, m, res, b, e)
    requires b' % m == (b * b) % m
    requires res' % m == (if e % 2 == 1 then res * b else res) % m
    ensures Completes(x, y, m, res', b', e / 2)
  {
    SquareStep(res, b, e, m, res', b');
  }

  lemma HalfwayStep(x: int, y: nat, m: int, res: int, b: int, e: int)
    requires Halfway(x, y, m, res, b, e) && e > 0
    ensures Halfway(x, y, m, if e % 2 == 1 then Rem(res * b, m) else res, Rem(b * b, m), e / 2)
  {
    hide Rem, Completes;
    var res', b' := if e % 2 == 1 then Rem(res * b, m) else res, Rem(b * b, m);
    RemOfFactors(b, b, m);
    RemOfFactors(res, b, m);
    StaysComplete(x, y, m, res, b, e, res', b');
    StaysInRange(x, y, m, res, b, e, res', b');
  }

  lemma HalfwayStarts(x: int, y: nat, m: int)
    requires m > 0
    ensures Halfway(x, y, m, 1, x, y)
  {
  }

  /** The loop ends with the power, save for the zeroth power modulo 1, where res is 1 and the residue is 0. */
  lemma HalfwayEnds(x: int, y: nat, m: int, res: int, b: int)
    requires Halfway(x, y, m, res, b, 0)
    ensures res == Power(x, y, m) <==> y > 0 || m > 1
  {
    PowSign(x, y);
    if y > 0 {
      RemUnique(res, Pow(x, y), m);
    } else if m > 1 {
      DivModUnique(1, 0, 1, m);
    }
  }

  /** The translation unit: its static modulus and its functions. */
  class Calculator {
    var MOD: int64

    /** A modulus whose residues can be multiplied. */
    predicate Usable()
      reads this
    {
      1 <= MOD as int <= SAFE_MOD
    }

    constructor ()
      ensures MOD == 1000000007
    {
      MOD := 1000000007;
    }

    method SetMod(x: int64)
      modifies this
      ensures MOD == x
    {
      MOD := x;
    }

    /** Congruent to the sum, and a residue unless the sum lies below -MOD. */
    method Add(x: int64, y: int64) returns (r: int64)
      requires MOD > 0 && Fits(x as int + y as int)
      ensures r as int % MOD as int == (x as int + y as int) % MOD as int
      ensures 0 <= r < MOD <==> -(MOD as int) <= x as int + y as int
    {
      var sum := x + y;
      r := sum;
      if r >= MOD {
        r := Rem64(r, MOD);
        RemRange(sum as int, MOD as int);
      }
      if r < 0 {
        ModShift(r as int, 1, MOD as int);
        r := r + MOD;
      }
    }

    method Mul(x: int64, y: int64) returns (r: int64)
      requires Usable()
      ensures r as int == Product(x as int, y as int, MOD as int)
      ensures Truncates(r as int, x as int * y as int, MOD as int)
    {
      ghost var m, a, b := MOD as int, x as int, y as int;
      RemRange(a, m);
      RemRange(b, m);
      SafeProduct(Rem(a, m), Rem(b, m));
      r := Rem64(Rem64(x, MOD) * Rem64(y, MOD), MOD);
      RemOfProduct(a, b, m);
      RemRange(a * b, m);
    }

    /** Square and multiply. Only the first square sees an unreduced base. */
    method QuickPower(x: int64, y: int64) returns (res: int64)
      requires Usable() && y >= 0
      requires y > 0 ==> Fits(x as int * x as int)
      ensures res as int == Power(x as int, y as nat, MOD as int) <==> y > 0 || MOD > 1
      ensures y > 0 || MOD > 1 ==> Truncates(res as int, Pow(x as int, y as nat), MOD as int)
      ensures y == 0 ==> res == 1
    {
      res := 1;
      var b, e := x, y;
      HalfwayStarts(x as int, y as nat, MOD as int);
      while e > 0
        invariant Halfway(x as int, y as nat, MOD as int, res as int, b as int, e as int)
        decreases e
      {
        HalfwayFits(x as int, y as nat, MOD as int, res as int, b as int, e as int);
        HalfwayStep(x as int, y as nat, MOD as int, res as int, b as int, e as int);
        if e % 2 == 1 {
          res := Rem64(res * b, MOD);
        }
        b := Rem64(b * b, MOD);
        e := e / 2;
      }
      HalfwayEnds(x as int, y as nat, MOD as int, res as int, b as int);
      RemRange(Pow(x as int, y as nat), MOD as int);
    }

    method Inv(x: int64) returns (r: int64)
      requires Usable() && MOD >= 2
      requires MOD > 2 ==> Fits(x as int * x as int)
      ensures r as int == Inverse(x as int, MOD as int)
      ensures Truncates(r as int, Pow(x as int, MOD as nat - 2), MOD as int)
      ensures IsPrime(MOD as int) && x as int % MOD as int != 0 ==> (x as int * r as int) % MOD as int == 1
    {
      r := QuickPower(x, MOD - 2);
      if IsPrime(MOD as int) && x as int % MOD as int != 0 {
        InverseOfPrime(x as int, MOD as int);
      }
    }

    method Divide(x: int64, y: int64) returns (r: int64)
      requires Usable() && MOD >= 2
      requires MOD > 2 ==> Fits(y as int * y as int)
      ensures r as int == Quotient(x as int, y as int, MOD as int)
      ensures Truncates(r as int, x as int * Inverse(y as int, MOD as int), MOD as int)
      ensures IsPrime(MOD as int) && y as int % MOD as int != 0 ==>
                (r as int * y as int) % MOD as int == x as int % MOD as int
    {
      var z := Inv(y);
      r := Mul(x, z);
      if IsPrime(MOD as int) && y as int % MOD as int != 0 {
        QuotientTimesDivisor(x as int, y as int, MOD as int);
      }
    }
  }
}
