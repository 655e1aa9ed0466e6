/**
 The number theory behind the modular inverse: residues, Euclid's lemma for primes and Fermat's little theorem.
 The proof of Fermat's theorem multiplies the numbers 1..p-1 by a, which permutes their residues.
 */
module NumberTheory {
  import opened Sets

  function Pow(b: int, e: nat): int {
    if e == 0 then 1 else b * Pow(b, e - 1)
  }

  ghost predicate IsPrime(p: int) {
    2 <= p && forall a, b :: 2 <= a && 2 <= b ==> a * b != p
  }

  // ----- residues

  lemma DivModUnique(x: int, q: int, r: int, m: int)
    requires m > 0 && 0 <= r < m && x == q * m + r
    ensures x / m == q && x % m == r
  {
    var d := x / m - q;
    assert d * m == r - x % m by {
      assert x == (x / m) * m + x % m;
    }
    assert d >= 1 ==> d * m >= m;
    assert d <= -1 ==> d * m <= -m;
  }

  lemma ModShift(a: int, k: int, m: int)
    requires m > 0
    ensures (a + k * m) % m == a % m
  {
    assert a + k * m == (a / m + k) * m + a % m;
    DivModUnique(a + k * m, a / m + k, a % m, m);
  }

  /** Equal residues differ by a multiple. */
  lemma ModQuotient(a: int, b: int, m: int) returns (k: int)
    requires m > 0 && a % m == b % m
    ensures a == b + k * m
  {
    k := a / m - b / m;
    assert a == (a / m) * m + a % m && b == (b / m) * m + b % m;
  }

  lemma MulShift(a: int, b: int, k: int, m: int, c: int)
    requires a == b + k * m
    ensures a * c == b * c + (k * c) * m
  {
    assert (k * m) * c == (k * c) * m;
  }

  lemma ModMul(a: int, b: int, c: int, d: int, m: int)
    requires m > 0 && a % m == b % m && c % m == d % m
    ensures (a * c) % m == (b * d) % m
  {
    var k := ModQuotient(a, b, m);
    var l := ModQuotient(c, d, m);
    MulShift(a, b, k, m, c);
    ModShift(b * c, k * c, m);
    MulShift(c, d, l, m, b);
    ModShift(d * b, l * b, m);
  }

  lemma ModMod(a: int, m: int)
    requires m > 0
    ensures (a % m) % m == a % m
  {
    DivModUnique(a % m, 0, a % m, m);
  }

  lemma ModNeg(a: int, b: int, m: int)
    requires m > 0 && a % m == b % m
    ensures (-a) % m == (-b) % m
  {
    ModMul(-1, -1, a, b, m);
  }

  lemma ZeroModMultiple(a: int, k: int, m: int)
    requires m > 0 && a == k * m
    ensures a % m == 0
  {
    DivModUnique(a, k, 0, m);
  }

  // ----- powers

  lemma {:induction false} PowSquare(b: int, e: nat)
    ensures Pow(b * b, e) == Pow(b, 2 * e)
  {
    if e > 0 {
      PowSquare(b, e - 1);
      assert Pow(b, 2 * e) == b * (b * Pow(b, 2 * e - 2));
    }
  }

  lemma {:induction false} PowMod(a: int, b: int, e: nat, m: int)
    requires m > 0 && a % m == b % m
    ensures Pow(a, e) % m == Pow(b, e) % m
  {
    if e > 0 {
      PowMod(a, b, e - 1, m);
      ModMul(a, b, Pow(a, e - 1), Pow(b, e - 1), m);
    }
  }

  lemma {:induction false} PowNonNegative(b: int, e: nat)
    requires b >= 0
    ensures Pow(b, e) >= 0
  {
    if e > 0 {
      PowNonNegative(b, e - 1);
    }
  }

  // ----- primes

  lemma PrimeRemainder(p: int, a: int)
    requires IsPrime(p) && 2 <= a < p
    ensures p % a != 0
  {
    var q := p / a;
    assert p == a * q + p % a;
    assert q <= 1 ==> a * q <= a;
  }

  lemma RemainderTimes(p: int, a: int, b: int, q: int, r: int, k: int)
    requires p == q * a + r && a * b == k * p
    ensures r * b == (b - q * k) * p
  {
    assert r * b == (p - q * a) * b == p * b - q * (a * b);
    assert q * (a * b) == q * (k * p) == (q * k) * p;
  }

  /** Euclid's lemma: a prime that divides a product and not its first factor divides the second. */
  lemma {:induction false} Euclid(a: int, b: int, p: int)
    requires IsPrime(p) && 1 <= a < p && (a * b) % p == 0
    ensures b % p == 0
    decreases a
  {
    if a > 1 {
      // the remainder of p by a is a smaller first factor
      var q, r, k := p / a, p % a, (a * b) / p;
      PrimeRemainder(p, a);
      RemainderTimes(p, a, b, q, r, k);
      ZeroModMultiple(r * b, b - q * k, p);
      Euclid(r, b, p);
    }
  }

  /** Multiplying by a number prime to p keeps distinct residues distinct. */
  lemma MultiplesDistinct(a: int, i: int, j: int, p: int)
    requires IsPrime(p) && a % p != 0 && 1 <= i < j < p
    ensures (a * i) % p != (a * j) % p
  {
    if (a * i) % p == (a * j) % p {
      var k := ModQuotient(a * j, a * i, p);
      assert (j - i) * a == k * p;
      ZeroModMultiple((j - i) * a, k, p);
      Euclid(j - i, a, p);
      assert false;
    }
  }

  lemma MultipleNonZero(a: int, i: int, p: int)
    requires IsPrime(p) && a % p != 0 && 1 <= i < p
    ensures 1 <= (a * i) % p < p
  {
    if (a * i) % p == 0 {
      assert (i * a) % p == 0;
      Euclid(i, a, p);
      assert false;
    }
  }

  // ----- products over sets

  ghost function Largest(s: set<int>): (x: int)
    requires s != {}
    ensures IsMax(x, s)
  {
    MaxExists(s);
    var x :| IsMax(x, s);
    x
  }

  /** The product of a finite set, taken from its largest element down. */
  ghost function SetProduct(s: set<int>): int
    decreases |s|
  {
    if s == {} then 1 else var x := Largest(s); x * SetProduct(s - {x})
  }

  lemma MulSwap(a: int, b: int, c: int, d: int)
    ensures (a * b) * (c * d) == (a * c) * (b * d)
  {
  }

  /** Any element can be split off. */
  lemma {:induction false} ProductSplit(s: set<int>, x: int)
    requires x in s
    ensures SetProduct(s) == x * SetProduct(s - {x})
    decreases |s|
  {
    var y := Largest(s);
    if x != y {
      ProductSplit(s - {y}, x);
      ProductSplit(s - {x}, y);
      assert s - {y} - {x} == s - {x} - {y};
      MulSwap(1, y, x, SetProduct(s - {x} - {y}));
    }
  }

  function Residue(a: int, i: int, p: int): int
    requires p > 0
  {
    (a * i) % p
  }

  /** The residues of a, 2a, ..., na. */
  ghost function Multiples(a: int, n: nat, p: int): set<int>
    requires p > 0
  {
    if n == 0 then {} else Multiples(a, n - 1, p) + {Residue(a, n, p)}
  }

  ghost function Factorial(n: nat): int {
    if n == 0 then 1 else n * Factorial(n - 1)
  }

  lemma {:induction false} MultiplesMembers(a: int, n: nat, p: int)
    requires p > 0
    ensures forall x :: x in Multiples(a, n, p) <==> exists i :: 1 <= i <= n && Residue(a, i, p) == x
  {
    hide Residue;
    if n > 0 {
      MultiplesMembers(a, n - 1, p);
      forall x ensures x in Multiples(a, n, p) <==> exists i :: 1 <= i <= n && Residue(a, i, p) == x {
        assert x in Multiples(a, n, p) <==> x in Multiples(a, n - 1, p) || x == Residue(a, n, p);
      }
    }
  }

  /** n distinct residues whose product is a^n n! modulo p. */
  lemma NextMultipleIsNew(a: int, n: nat, p: int)
    requires IsPrime(p) && a % p != 0 && 0 < n < p
    ensures Residue(a, n, p) !in Multiples(a, n - 1, p)
  {
    MultiplesMembers(a, n - 1, p);
    if Residue(a, n, p) in Multiples(a, n - 1, p) {
      var i :| 1 <= i <= n - 1 && Residue(a, i, p) == Residue(a, n, p);
      MultiplesDistinct(a, i, n, p);
    }
  }

  /** One factor more on both sides. */
  lemma NextProduct(a: int, n: nat, p: int, product: int)
    requires p > 0 && n > 0 && product % p == (Pow(a, n - 1) * Factorial(n - 1)) % p
    ensures (Residue(a, n, p) * product) % p == (Pow(a, n) * Factorial(n)) % p
  {
    ModMod(a * n, p);
    ModMul(Residue(a, n, p), a * n, product, Pow(a, n - 1) * Factorial(n - 1), p);
    MulSwap(a, n, Pow(a, n - 1), Factorial(n - 1));
  }

  lemma {:induction false} MultiplesProduct(a: int, n: nat, p: int)
    requires IsPrime(p) && a % p != 0 && n < p
    ensures |Multiples(a, n, p)| == n
    ensures SetProduct(Multiples(a, n, p)) % p == (Pow(a, n) * Factorial(n)) % p
  {
    if n > 0 {
      var before, x := Multiples(a, n - 1, p), Residue(a, n, p);
      MultiplesProduct(a, n - 1, p);
      NextMultipleIsNew(a, n, p);
      ProductSplit(before + {x}, x);
      assert before + {x} - {x} == before;
      NextProduct(a, n, p, SetProduct(before));
    }
  }

  /** (p-1)! is not divisible by p. */
  lemma {:induction false} FactorialPrime(n: nat, p: int)
    requires IsPrime(p) && n < p
    ensures Factorial(n) % p != 0
  {
    if n == 0 {
      DivModUnique(1, 0, 1, p);
    } else {
      FactorialPrime(n - 1, p);
      if Factorial(n) % p == 0 {
        Euclid(n, Factorial(n - 1), p);
      }
    }
  }

  /** If p divides c f and not f, it divides c. */
  lemma CancelZero(c: int, f: int, p: int)
    requires IsPrime(p) && f % p != 0 && (c * f) % p == 0
    ensures c % p == 0
  {
    ModMod(c, p);
    ModMul(c % p, c, f, f, p);
    if c % p != 0 {
      Euclid(c % p, f, p);
    }
  }

  lemma CancelFactor(a: int, f: int, p: int)
    requires IsPrime(p) && f % p != 0 && (a * f) % p == f % p
    ensures a % p == 1
  {
    var k := ModQuotient(a * f, f, p);
    assert (a - 1) * f == k * p;
    ZeroModMultiple((a - 1) * f, k, p);
    CancelZero(a - 1, f, p);
    DivModUnique(a, (a - 1) / p, 1, p);
  }

  /** Multiplying 1..p-1 by a permutes their residues. */
  lemma MultiplesPermute(a: int, p: int)
    requires IsPrime(p) && a % p != 0
    ensures Multiples(a, p - 1, p) == Multiples(1, p - 1, p)
  {
    var n := p - 1;
    var image, all := Multiples(a, n, p), Multiples(1, n, p);
    MultiplesMembers(a, n, p);
    MultiplesMembers(1, n, p);
    DivModUnique(1, 0, 1, p);
    MultiplesProduct(a, n, p);
    MultiplesProduct(1, n, p);
    forall x | x in image ensures x in all {
      var i :| 1 <= i <= n && Residue(a, i, p) == x;
      MultipleNonZero(a, i, p);
      DivModUnique(x, 0, x, p);
      assert Residue(1, x, p) == x;
    }
    SubsetOfFullSize(image, all);
  }

  lemma {:induction false} PowOne(n: nat)
    ensures Pow(1, n) == 1
  {
    if n > 0 {
      PowOne(n - 1);
    }
  }

  /** Fermat's little theorem. */
  lemma Fermat(a: int, p: int)
    requires IsPrime(p) && a % p != 0
    ensures Pow(a, p - 1) % p == 1
  {
    var n := p - 1;
    MultiplesPermute(a, p);
    DivModUnique(1, 0, 1, p);
    MultiplesProduct(a, n, p);
    MultiplesProduct(1, n, p);
    PowOne(n);
    FactorialPrime(n, p);
    CancelFactor(Pow(a, n), Factorial(n), p);
  }
}
