/** is_prime and next_prime of hash.c. */
module PrimeSearch {
  import opened Primes

  const SMALL_PRIMES: seq<nat> := [2, 3, 5, 7, 11, 13, 17, 19, 23, 29]

  const L: nat := 30

  /** The numbers below 30 that are coprime to 30. */
  const INDICES: seq<nat> := [1, 7, 11, 13, 17, 19, 23, 29]

  /** What the unrolled loop of is_prime adds to i after each of its eight tests. */
  const INCREMENTS: seq<nat> := [6, 4, 2, 4, 2, 4, 6, 2]

  /** No number from 7 up to `i` on the wheel divides x. */
  ghost predicate TriedUpTo(x: nat, i: nat) {
    forall d: nat | 7 <= d < i && OnWheel(d) :: !Divides(d, x)
  }

  /** A quotient below i leaves no room for a divisor from i up to the root. */
  lemma SquareAbove(x: nat, i: nat, d: nat)
    requires 0 < i && x / i < i <= d
    ensures x < d * d
  {
    assert x == x / i * i + x % i;
    MulIncreases(x / i, i - 1, i);
    assert (i - 1) * i == i * i - i;
    MulIncreases(i, d, i);
    MulIncreases(i, d, d);
  }

  lemma QuotientDivides(x: nat, i: nat)
    requires 0 < i
    ensures x == x / i * i <==> Divides(i, x)
    ensures i <= x / i ==> i * i <= x
  {
    assert x == x / i * i + x % i;
    if i <= x / i {
      MulIncreases(i, x / i, i);
    }
  }

  /** One test of is_prime: what each of its three exits means. */
  lemma TrialEnds(x: nat, i: nat)
    requires 7 <= i && OnWheel(i) && TriedUpTo(x, i)
    ensures x / i < i ==> NoWheelDivisor(x)
    ensures i <= x / i && x == x / i * i ==> !NoWheelDivisor(x)
    ensures i <= x / i && x != x / i * i ==> TriedUpTo(x, i + 1) && i <= x
  {
    QuotientDivides(x, i);
    if x / i < i {
      forall d: nat | 7 <= d && OnWheel(d) ensures d * d <= x ==> !Divides(d, x) {
        if i <= d {
          SquareAbove(x, i, d);
        }
      }
    } else {
      MulIncreases(1, i, i);
    }
  }

  lemma ResidueOnWheel(d: nat)
    ensures OnWheel(d) <==> OnWheel(d % 30)
  {
    var q, r := d / 30, d % 30;
    assert d == 30 * q + r;
    ModOfMultiple(15 * q + r / 2, r % 2, 2);
    ModOfMultiple(10 * q + r / 3, r % 3, 3);
    ModOfMultiple(6 * q + r / 5, r % 5, 5);
  }

  lemma WheelTable(k: nat, t: nat)
    requires k < 8
    ensures OnWheel(INDICES[k]) && (INDICES[k] + INCREMENTS[k]) % 30 == INDICES[(k + 1) % 8]
    ensures 0 < t < INCREMENTS[k] ==> !OnWheel((INDICES[k] + t) % 30)
  {
  }

  /** The residues and steps of the wheel: nothing coprime to 30 lies between two
      neighbours. */
  lemma WheelStep(i: nat, k: nat)
    requires k < 8 && i % 30 == INDICES[k]
    ensures OnWheel(i)
    ensures (i + INCREMENTS[k]) % 30 == INDICES[(k + 1) % 8]
    ensures forall d: nat | i < d < i + INCREMENTS[k] :: !OnWheel(d)
  {
    hide OnWheel;
    ResidueOnWheel(i);
    WheelTable(k, 0);
    forall d: nat | i < d < i + INCREMENTS[k] ensures !OnWheel(d) {
      var t := d - i;
      WheelTable(k, t);
      assert (i + t) % 30 == (i % 30 + t) % 30;
      ResidueOnWheel(d);
    }
  }

  /** is_prime on any x: trial division by the wheel numbers up to the root. */
  method IsPrime(x: nat) returns (prime: bool)
    ensures prime <==> NoWheelDivisor(x)
    ensures 1 < x && OnWheel(x) ==> (prime <==> Prime(x))
  {
    hide OnWheel, NoWheelDivisor, Prime;
    if 1 < x && OnWheel(x) {
      WheelDecidesPrime(x);
    }
    var n := 3;
    while n < |SMALL_PRIMES|
      invariant 3 <= n <= |SMALL_PRIMES|
      invariant TriedUpTo(x, if n < |SMALL_PRIMES| then SMALL_PRIMES[n] else 31)
    {
      var p := SMALL_PRIMES[n];
      SmallStep(n);
      TrialEnds(x, p);
      var q := x / p;
      if q < p {
        return true;
      }
      if x == q * p {
        return false;
      }
      n := n + 1;
    }
    var i: nat, k: nat := 31, 0;
    while true
      invariant 31 <= i <= x + 31 && k < 8 && i % 30 == INDICES[k]
      invariant TriedUpTo(x, i)
      decreases x + 37 - i
    {
      WheelStep(i, k);
      TrialEnds(x, i);
      var q := x / i;
      if q < i {
        return true;
      }
      if x == q * i {
        return false;
      }
      i := i + INCREMENTS[k];
      k := (k + 1) % 8;
    }
  }

  /** Between two small primes from 7 on, and from 29 to 31, there is no wheel number. */
  lemma SmallStep(n: nat)
    requires 3 <= n < |SMALL_PRIMES|
    ensures OnWheel(SMALL_PRIMES[n]) && 7 <= SMALL_PRIMES[n]
    ensures forall d: nat | SMALL_PRIMES[n] < d < (if n + 1 < |SMALL_PRIMES| then SMALL_PRIMES[n + 1] else 31) :: !OnWheel(d)
  {
  }

  lemma SmallPrimesArePrime(i: nat)
    requires i < |SMALL_PRIMES|
    ensures Prime(SMALL_PRIMES[i])
  {
    var p := SMALL_PRIMES[i];
    if 3 <= i {
      WheelDecidesPrime(p);
      forall d: nat | 7 <= d && OnWheel(d) ensures d * d <= p ==> !Divides(d, p) {
        MulIncreases(7, d, 7);
        MulIncreases(7, d, d);
      }
    }
  }

  lemma PrimesBelow31(q: nat)
    requires Prime(q) && q < 31
    ensures q in SMALL_PRIMES
  {
    if 5 < q {
      LargePrimeOnWheel(q);
      assert q == SMALL_PRIMES[3] || q == SMALL_PRIMES[4] || q == SMALL_PRIMES[5] || q == SMALL_PRIMES[6]
          || q == SMALL_PRIMES[7] || q == SMALL_PRIMES[8] || q == SMALL_PRIMES[9];
    } else {
      assert q == 4 ==> Divides(2, q);
      assert q == SMALL_PRIMES[0] || q == SMALL_PRIMES[1] || q == SMALL_PRIMES[2];
    }
  }

  lemma CandidateResidue(k0: nat, index: nat)
    requires index < 8
    ensures (L * k0 + INDICES[index]) % 30 == INDICES[index]
    ensures INCREMENTS[index] + INDICES[index] == if index == 7 then L + INDICES[0] else INDICES[index + 1]
  {
    ModOfMultiple(k0, INDICES[index], 30);
  }

  lemma SmallPrimeIsNext(n: nat, i: nat)
    requires i < |SMALL_PRIMES| && n < SMALL_PRIMES[i]
    requires forall j | 0 <= j < i :: SMALL_PRIMES[j] <= n
    ensures LeastPrimeAbove(SMALL_PRIMES[i], n)
  {
    SmallPrimesArePrime(i);
    forall q: nat | n < q && Prime(q) ensures SMALL_PRIMES[i] <= q {
      if q < SMALL_PRIMES[i] {
        PrimesBelow31(q);
        var j :| 0 <= j < |SMALL_PRIMES| && SMALL_PRIMES[j] == q;
        SmallPrimesAscend(i, j);
        assert false;
      }
    }
  }

  lemma SmallPrimesAscend(i: nat, j: nat)
    requires i < |SMALL_PRIMES| && j < |SMALL_PRIMES|
    ensures i <= j ==> SMALL_PRIMES[i] <= SMALL_PRIMES[j]
  {
  }

  /** The first candidate lies on or before every prime above n. */
  lemma FirstCandidate(n: nat, p: nat, index: nat)
    requires 29 <= n && index < 8 && p == L * (n / L) + INDICES[index]
    requires forall j | 0 <= j < index :: INDICES[j] <= n % L
    requires n % L < INDICES[index] || (index == 0 && forall j | 0 <= j < 8 :: INDICES[j] <= n % L)
    ensures forall q: nat | n < q && Prime(q) :: p <= q
  {
    forall q: nat | n < q && Prime(q) ensures p <= q {
      LargePrimeOnWheel(q);
      ResidueOnWheel(q);
      var j := ResidueIndex(q % L);
      IndicesAscend(index, j);
    }
  }

  lemma ResidueIndex(r: nat) returns (j: nat)
    requires r < 30 && OnWheel(r)
    ensures j < 8 && INDICES[j] == r
  {
    j := if r == 1 then 0 else if r == 7 then 1 else if r == 11 then 2 else if r == 13 then 3
         else if r == 17 then 4 else if r == 19 then 5 else if r == 23 then 6 else 7;
  }

  lemma IndicesAscend(i: nat, j: nat)
    requires i < 8 && j < 8
    ensures i <= j ==> INDICES[i] <= INDICES[j]
  {
  }

  /** A rejected candidate is not the next prime, so the next prime is not before the
      following candidate. */
  lemma NotYet(n: nat, p: nat, index: nat, target: nat)
    requires index < 8 && p % 30 == INDICES[index] && 29 <= n < target && Prime(target)
    requires p <= n || !NoWheelDivisor(p)
    requires forall q: nat | n < q && Prime(q) :: p <= q
    ensures p < target
    ensures forall q: nat | n < q && Prime(q) :: p + INCREMENTS[index] <= q
  {
    WheelStep(p, index);
    forall q: nat | n < q && Prime(q) ensures p < q && p + INCREMENTS[index] <= q {
      LargePrimeOnWheel(q);
      if q == p {
        WheelDecidesPrime(p);
        assert false;
      }
    }
  }

  /** next_prime for every n. */
  method NextPrime(n: nat) returns (p: nat)
    ensures LeastPrimeAbove(p, n)
  {
    hide Prime, NoWheelDivisor, OnWheel;
    if n <= SMALL_PRIMES[|SMALL_PRIMES| - 1] {
      var i := 0;
      while i < |SMALL_PRIMES|
        invariant i <= |SMALL_PRIMES|
        invariant forall j | 0 <= j < i :: SMALL_PRIMES[j] <= n
      {
        if SMALL_PRIMES[i] > n {
          SmallPrimeIsNext(n, i);
          return SMALL_PRIMES[i];
        }
        i := i + 1;
      }
    }
    var k0 := n / L;
    var index := 0;
    var i := 0;
    while i < |INDICES|
      invariant i <= |INDICES| && index == 0
      invariant forall j | 0 <= j < i :: INDICES[j] <= n - k0 * L
    {
      if INDICES[i] > n - k0 * L {
        index := i;
        break;
      }
      i := i + 1;
    }
    ghost var target := PrimeAbove(n);
    p := L * k0 + INDICES[index];
    FirstCandidate(n, p, index);
    var prime := IsPrime(p);
    while !prime || p <= n
      invariant index < 8 && p == L * k0 + INDICES[index] && 29 <= n < target
      invariant forall q: nat | n < q && Prime(q) :: p <= q
      invariant prime <==> NoWheelDivisor(p)
      decreases target - p
    {
      CandidateResidue(k0, index);
      NotYet(n, p, index, target);
      index := index + 1;
      if index == |INDICES| {
        k0 := k0 + 1;
        index := 0;
      }
      p := L * k0 + INDICES[index];
      prime := IsPrime(p);
    }
    CandidateResidue(k0, index);
    WheelStep(p, index);
    WheelDecidesPrime(p);
  }
}
