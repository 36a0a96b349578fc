/** The number theory behind the prime search of hash.c: trial division by numbers
    coprime to 30, and enough primes for the search to end. */
module Primes {

  predicate Divides(d: nat, x: nat)
    requires 0 < d
  {
    x % d == 0
  }

  ghost predicate Prime(p: nat) {
    2 <= p && forall d: nat | 2 <= d < p :: !Divides(d, p)
  }

  /** The numbers on the mod-30 wheel. */
  predicate OnWheel(d: nat) {
    d % 2 != 0 && d % 3 != 0 && d % 5 != 0
  }

  /** What is_prime looks for and does not find. */
  ghost predicate NoWheelDivisor(x: nat) {
    forall d: nat | 7 <= d && d * d <= x && OnWheel(d) :: !Divides(d, x)
  }

  // ----- Divisors ----------------------------------------------------------

  lemma DividesIsMultiple(d: nat, x: nat) returns (k: nat)
    requires 0 < d && Divides(d, x)
    ensures x == k * d
  {
    k := x / d;
  }

  lemma MultipleDivides(d: nat, k: nat)
    requires 0 < d
    ensures Divides(d, k * d)
  {
    ModOfMultiple(k, 0, d);
  }

  lemma {:induction false} ModOfMultiple(k: nat, r: nat, d: nat)
    requires r < d
    ensures (k * d + r) % d == r && (k * d + r) / d == k
  {
    var x := k * d + r;
    assert x == x / d * d + x % d;
    assert (x / d - k) * d == x / d * d - k * d;
    SmallMultiple(x / d - k, r - x % d, d);
  }

  lemma SmallMultiple(m: int, t: int, d: int)
    requires m * d == t && -d < t < d
    ensures m == 0
  {
    if 1 <= m {
      MulIncreases(1, m, d);
    } else if m <= -1 {
      MulIncreases(m, -1, d);
    }
  }

  lemma MulIncreases(a: int, b: int, d: int)
    requires a <= b && 0 <= d
    ensures a * d <= b * d
  {
  }

  lemma DividesTransitive(a: nat, b: nat, c: nat)
    requires 0 < a && 0 < b && Divides(a, b) && Divides(b, c)
    ensures Divides(a, c)
  {
    var i := DividesIsMultiple(a, b);
    var j := DividesIsMultiple(b, c);
    assert c == (j * i) * a by { assert j * (i * a) == (j * i) * a; }
    MultipleDivides(a, j * i);
  }

  /** The least divisor of x that is at least `from`. */
  function LeastDivisor(x: nat, from: nat): (d: nat)
    requires 2 <= from <= x
    requires forall e: nat | 2 <= e < from :: !Divides(e, x)
    ensures from <= d <= x && Divides(d, x)
    ensures forall e: nat | 2 <= e < d :: !Divides(e, x)
    decreases x - from
  {
    if Divides(from, x) then from
    else
      assert Divides(x, x) by { MultipleDivides(x, 1); }
      LeastDivisor(x, from + 1)
  }

  lemma LeastDivisorIsPrime(x: nat)
    requires 2 <= x
    ensures Prime(LeastDivisor(x, 2))
  {
    var d := LeastDivisor(x, 2);
    forall e: nat | 2 <= e < d ensures !Divides(e, d) {
      if Divides(e, d) {
        DividesTransitive(e, d, x);
        assert false;
      }
    }
  }

  /** A number that is not prime has a divisor up to its square root. */
  lemma LeastDivisorIsSmall(x: nat)
    requires 2 <= x && !Prime(x)
    ensures LeastDivisor(x, 2) * LeastDivisor(x, 2) <= x
  {
    var d := LeastDivisor(x, 2);
    LeastDivisorIsPrime(x);
    var k := DividesIsMultiple(d, x);
    assert k != 0 && k != 1 by { assert 0 * d == 0 && 1 * d == d; }
    MultipleDivides(k, d);
    assert d * k == k * d;
    if k < d {
      assert false;
    }
    assert k * d >= d * d;
  }

  // ----- The wheel ---------------------------------------------------------

  lemma DivisorOnWheel(d: nat, x: nat)
    requires 0 < d && Divides(d, x) && OnWheel(x)
    ensures OnWheel(d)
  {
    if d % 2 == 0 { DividesTransitive(2, d, x); }
    if d % 3 == 0 { DividesTransitive(3, d, x); }
    if d % 5 == 0 { DividesTransitive(5, d, x); }
  }

  lemma WheelStartsAtSeven(d: nat)
    requires 2 <= d && OnWheel(d)
    ensures 7 <= d
  {
  }

  lemma PrimeHasNoWheelDivisor(x: nat)
    requires Prime(x)
    ensures NoWheelDivisor(x)
  {
    hide OnWheel, Divides;
    forall d: nat | 7 <= d && d * d <= x && OnWheel(d) ensures !Divides(d, x) {
      MulIncreases(2, d, d);
    }
  }

  lemma CompositeHasWheelDivisor(x: nat)
    requires 1 < x && OnWheel(x) && !Prime(x)
    ensures !NoWheelDivisor(x)
  {
    hide OnWheel, Divides, Prime;
    var d := LeastDivisor(x, 2);
    LeastDivisorIsSmall(x);
    DivisorOnWheel(d, x);
    WheelStartsAtSeven(d);
  }

  /** For numbers coprime to 30 the trial division decides primality. */
  lemma WheelDecidesPrime(x: nat)
    requires 1 < x && OnWheel(x)
    ensures NoWheelDivisor(x) <==> Prime(x)
  {
    hide OnWheel, NoWheelDivisor, Prime;
    if Prime(x) {
      PrimeHasNoWheelDivisor(x);
    } else {
      CompositeHasWheelDivisor(x);
    }
  }

  lemma LargePrimeOnWheel(p: nat)
    requires Prime(p) && 5 < p
    ensures OnWheel(p)
  {
    assert !Divides(2, p) && !Divides(3, p) && !Divides(5, p);
  }

  /** What is left of x when 2, 3 and 5 are divided out. */
  function Rough(x: nat): (r: nat)
    requires 0 < x
    ensures 0 < r <= x && OnWheel(r)
  {
    if x % 2 == 0 then Rough(x / 2)
    else if x % 3 == 0 then Rough(x / 3)
    else if x % 5 == 0 then Rough(x / 5)
    else x
  }

  lemma MulDistributes(a: int, b: int, d: int)
    ensures (a + b) * d == a * d + b * d
  {
  }

  lemma MulAssociates(a: int, b: int, d: int)
    ensures (a * b) * d == a * (b * d)
  {
  }

  lemma ProductOfSums(s: nat, a: nat, b: nat, c: nat, e: nat, j: nat)
    requires j == c * s + e
    ensures (a * s + b) * j == (a * j + b * c) * s + b * e
  {
    MulDistributes(a * s, b, j);
    MulAssociates(a, s, j);
    MulAssociates(a, j, s);
    assert s * j == j * s;
    MulDistributes(c * s, e, b);
    assert b * j == j * b && c * s * b == b * (c * s) && e * b == b * e;
    MulAssociates(b, c, s);
    MulDistributes(a * j, b * c, s);
  }

  /** A product leaves the remainder of the product of remainders. */
  lemma ProductRemainder(s: nat, d: nat, j: nat)
    requires 0 < s
    ensures (d * j) % s == (d % s * (j % s)) % s
  {
    var a, b, c, e := d / s, d % s, j / s, j % s;
    ProductOfSums(s, a, b, c, e, j);
    assert d * j == (a * j + b * c) * s + b * e;
    ModOfSum(a * j + b * c, b * e, s);
  }

  /** A small prime that divides a product divides one of the factors. */
  lemma SmallPrimeSplits(s: nat, d: nat, j: nat)
    requires s in {2, 3, 5} && (d * j) % s == 0 && d % s != 0
    ensures j % s == 0
  {
    ProductRemainder(s, d, j);
    if j % s != 0 {
      SmallResidues(s, d % s, j % s);
      assert false;
    }
  }

  lemma SmallResidues(s: nat, b: nat, e: nat)
    requires s in {2, 3, 5} && 0 < b < s && 0 < e < s
    ensures (b * e) % s != 0
  {
    var rows := if b == 1 then e else if b == 2 then 2 * e else if b == 3 then 3 * e else 4 * e;
    assert b * e == rows;
  }

  lemma ModOfSum(k: nat, t: nat, d: nat)
    requires 0 < d
    ensures (k * d + t) % d == t % d
  {
    var q, r := t / d, t % d;
    assert k * d + t == (k + q) * d + r;
    ModOfMultiple(k + q, r, d);
  }

  /** A wheel number divides x exactly when it divides what is left of x. */
  lemma {:induction false} WheelDivisorOfRough(x: nat, d: nat)
    requires 0 < x && 0 < d && OnWheel(d)
    ensures Divides(d, x) <==> Divides(d, Rough(x))
    decreases x
  {
    if OnWheel(x) {
    } else {
      var s := if x % 2 == 0 then 2 else if x % 3 == 0 then 3 else 5;
      WheelDivisorOfQuotient(x, s, d);
      WheelDivisorOfRough(x / s, d);
    }
  }

  lemma WheelDivisorOfQuotient(x: nat, s: nat, d: nat)
    requires s in {2, 3, 5} && x % s == 0 && 0 < d && d % s != 0
    ensures Divides(d, x) <==> Divides(d, x / s)
  {
    var y := x / s;
    assert x == y * s;
    if Divides(d, x) {
      DivisorOfQuotient(y, s, d);
    }
    if Divides(d, y) {
      DivisorOfMultiple(y, s, d);
    }
  }

  lemma DivisorOfMultiple(y: nat, s: nat, d: nat)
    requires 0 < d && Divides(d, y)
    ensures Divides(d, y * s)
  {
    var j := DividesIsMultiple(d, y);
    MulAssociates(s, j, d);
    MultipleDivides(d, s * j);
  }

  lemma DivisorOfQuotient(y: nat, s: nat, d: nat)
    requires s in {2, 3, 5} && 0 < d && d % s != 0 && Divides(d, y * s)
    ensures Divides(d, y)
  {
    hide Divides;
    var j := DividesIsMultiple(d, y * s);
    assert d * j == y * s;
    ModOfMultiple(y, 0, s);
    SmallPrimeSplits(s, d, j);
    var k := j / s;
    assert j == k * s;
    MulAssociates(k, s, d);
    MulAssociates(k, d, s);
    assert s * d == d * s;
    SameFactor(y, k * d, s);
    MultipleDivides(d, k);
  }

  lemma SameFactor(a: nat, b: nat, s: nat)
    requires 0 < s && a * s == b * s
    ensures a == b
  {
    assert (a - b) * s == 0;
    SmallMultiple(a - b, 0, s);
  }

  /** Away from the wheel is_prime finds no divisor exactly when x is 0, or nothing is left
      of x, or a prime that is larger than what was divided out. */
  lemma NoDivisorOffTheWheel(x: nat)
    requires !OnWheel(x)
    ensures NoWheelDivisor(x) <==> x == 0 || Rough(x) == 1 || (Prime(Rough(x)) && x < Rough(x) * Rough(x))
  {
    if x == 0 {
      NoneUpToOne(x);
    } else {
      NoDivisorOfPositive(x);
    }
  }

  lemma NoneUpToOne(x: nat)
    requires x <= 1
    ensures NoWheelDivisor(x) && !Prime(x)
  {
    forall d: nat | 7 <= d ensures x < d * d {
      MulIncreases(7, d, d);
    }
  }

  lemma NoDivisorOfPositive(x: nat)
    requires 0 < x && !OnWheel(x)
    ensures NoWheelDivisor(x) <==> Rough(x) == 1 || (Prime(Rough(x)) && x < Rough(x) * Rough(x))
  {
    hide OnWheel, Rough, Divides;
    var r := Rough(x);
    WheelDivisorOfRough(x, r);
    assert Divides(r, r) by { MultipleDivides(r, 1); }
    if 1 < r {
      WheelStartsAtSeven(r);
      if !Prime(r) {
        var d := LeastDivisor(r, 2);
        LeastDivisorIsSmall(r);
        DivisorOnWheel(d, r);
        WheelStartsAtSeven(d);
        WheelDivisorOfRough(x, d);
        assert !NoWheelDivisor(x);
      } else if r * r <= x {
        assert !NoWheelDivisor(x);
      } else {
        NoOtherDivisor(x);
      }
    } else {
      NoOtherDivisor(x);
    }
  }

  lemma NoOtherDivisor(x: nat)
    requires 0 < x
    requires Rough(x) == 1 || (Prime(Rough(x)) && x < Rough(x) * Rough(x))
    ensures NoWheelDivisor(x)
  {
    hide OnWheel, Rough, Divides;
    var r := Rough(x);
    forall d: nat | 7 <= d && d * d <= x && OnWheel(d) ensures !Divides(d, x) {
      if Divides(d, x) {
        WheelDivisorOfRough(x, d);
        DivisorIsAtMost(d, r);
        assert false;
      }
    }
  }

  lemma DivisorIsAtMost(d: nat, x: nat)
    requires 0 < d && 0 < x && Divides(d, x)
    ensures d <= x
  {
    var k := DividesIsMultiple(d, x);
    assert k != 0 by { assert 0 * d == 0; }
    MulIncreases(1, k, d);
  }

  /** Away from the wheel only 2, 3 and 5 are prime, and the answer is right for them and
      for every x of which, 2, 3 and 5 divided out, something is left that is either not
      prime or no larger than the part divided out. The answers for 0 and 4 are wrong. */
  lemma OffTheWheel(x: nat)
    requires !OnWheel(x)
    ensures (NoWheelDivisor(x) <==> Prime(x)) <==>
            0 < x && (x in {2, 3, 5} || (Rough(x) != 1 && (!Prime(Rough(x)) || Rough(x) * Rough(x) <= x)))
    ensures NoWheelDivisor(4) && !Prime(4)
  {
    hide NoWheelDivisor, Rough;
    NoDivisorOffTheWheel(x);
    RoughOfFew();
    NoDivisorOffTheWheel(4);
    PrimesOffTheWheel(x);
    PrimesOffTheWheel(4);
  }

  lemma RoughOfFew()
    ensures Rough(2) == 1 && Rough(3) == 1 && Rough(4) == 1 && Rough(5) == 1
  {
    assert Rough(1) == 1;
  }

  lemma PrimesOffTheWheel(x: nat)
    requires !OnWheel(x)
    ensures Prime(x) <==> x in {2, 3, 5}
  {
    if x % 2 == 0 { assert Divides(2, x); }
    if x % 3 == 0 { assert Divides(3, x); }
    if x % 5 == 0 { assert Divides(5, x); }
    if x == 5 {
      assert !Divides(2, 5) && !Divides(3, 5) && !Divides(4, 5);
    }
  }

  /** Exactly for which x the answer of is_prime is right. It is wrong for 0 and 1. */
  lemma AnswerRightIff(x: nat)
    ensures (NoWheelDivisor(x) <==> Prime(x)) <==>
            1 < x && (OnWheel(x) || x in {2, 3, 5} ||
                      (Rough(x) != 1 && (!Prime(Rough(x)) || Rough(x) * Rough(x) <= x)))
  {
    hide OnWheel, NoWheelDivisor, Prime, Rough;
    if x <= 1 {
      NoneUpToOne(x);
    } else if OnWheel(x) {
      WheelDecidesPrime(x);
    } else {
      OffTheWheel(x);
    }
  }

  // ----- There is always a next prime --------------------------------------

  function Factorial(n: nat): (f: nat)
    ensures 1 <= f
  {
    if n == 0 then 1
    else
      assert n * Factorial(n - 1) >= 1 * Factorial(n - 1);
      n * Factorial(n - 1)
  }

  lemma {:induction false} FactorialDivisible(n: nat, d: nat)
    requires 1 <= d <= n
    ensures Divides(d, Factorial(n))
    decreases n
  {
    if d == n {
      MultipleDivides(n, Factorial(n - 1));
      assert Factorial(n - 1) * n == n * Factorial(n - 1);
    } else {
      FactorialDivisible(n - 1, d);
      var k := DividesIsMultiple(d, Factorial(n - 1));
      assert n * (k * d) == (n * k) * d;
      MultipleDivides(d, n * k);
    }
  }

  /** Euclid: the least divisor of n! + 1 is a prime above n. */
  lemma PrimeAbove(n: nat) returns (p: nat)
    ensures n < p && Prime(p)
  {
    var x := Factorial(n) + 1;
    p := LeastDivisor(x, 2);
    LeastDivisorIsPrime(x);
    if p <= n {
      FactorialDivisible(n, p);
      var k := DividesIsMultiple(p, Factorial(n));
      ModOfMultiple(k, 1, p);
      assert false;
    }
  }

  ghost predicate LeastPrimeAbove(p: nat, n: nat) {
    n < p && Prime(p) && forall q: nat | n < q && Prime(q) :: p <= q
  }
}
